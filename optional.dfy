/** The "no value" result of the session store: Go returns `nil` where this returns `None`. */
module Optional {
  datatype Option<+T> = None | Some(value: T)
}
