# Session registry of `cookie/cookie.go`, modelled in Dafny

The `cookie` package keeps a process-wide session registry for a web
application. A `SessionSet` maps session tokens to `Session`s. It also keeps a
`container/list` of list elements in order of last access, oldest at the
front, and an `int64` counter of sessions created. A `Session` holds data
partitioned by "product instance", a name taken from the first two segments of
the request path. It also holds its last-access time and the list element that
`SessionSet.Set` pushed for it.

The model is split into these modules:

- `LinkedList` models the part of `container/list` the registry uses.
  - A list is the sequence of its elements. An element is an object, so two elements with equal values are still different elements.
  - `Remove` and `MoveToBack` do nothing when the element is not in the list, as in Go.
  - An element holds an `Entry`: either a token (`Key`) or another element (`Stale`). `UpdateAll` pushes the second kind.
- `Expiry` covers instants, the truncation of `Duration.Seconds()` to `int`, and the validity test of `Update` and `UpdateAll`.
- `ProductInstance` models `ProductInstanceWithURL`, including `strings.Split` on `"/"` and its inverse, the join.
- `SessionStore` models a session's partitioned data and the class `Session` with `Get` and `Set`.
- `Eviction` holds the specification functions.
  - `Sweep` specifies `Update`'s walk from the front of the list.
  - `Surviving` specifies `UpdateAll`'s filter.
  - `SortedByTime` is the recency order that makes `Update`'s early stop sound.
  - The module also holds the lemmas about these functions.
- `Registry` holds the class `SessionSet` and its methods.
  - `Update`'s loop is `Walk`, and each pass of that loop is `VisitFront`. `UpdateAll`'s loop is `Rebuild`.
  - The module also holds the lemmas tying the map and the list together.

The model keeps the behaviour of the code as written, including three effects
that are visible at the registry level:

- `UpdateAll` builds a new list whose elements hold the survivors' old *elements*, not their tokens.
  - `Update` then reads every entry as the token `""`. When no session has the empty token, it unlinks them all and deletes nothing (`Eviction.SweepOfStaleEntries`).
  - `Get` can no longer move a session's element, because that element is not in the new list, so `MoveToBack` does nothing.
- In `Update`, the branch for a non-string or empty token unlinks the element but does not `continue`.
  - A valid session under the empty token at the front therefore loses its list entry and stays in the map (`Eviction.ValidEmptyTokenLosesEntry`).
- `ID` only advances `Index`. Nothing guarantees that the returned token is not already a key of the map.

Instants are natural numbers of nanoseconds since Go's zero `time.Time`, so
the instant `0` is the zero time. `time.Now()` becomes a parameter `now`, and
the global `Validity` becomes a parameter `validity`. `Expiry.DefaultValidity`
is the hour that `init` sets. Go's `interface{}` values are a type parameter
`V`. A Go `nil` map reads like an empty map, and `Set` replaces a `nil` map by
an empty one before writing. The model therefore uses only empty maps, and the
`Values == nil` branches coincide with the empty-map cases.

`SessionSet` carries a ghost field `times`, which mirrors every session's
`time`. `Valid()` ties the two together. With it, the recency order
(`Sorted()`) and the sweep specifications are stated on plain maps. `Walk`,
`VisitFront` and `Rebuild` work on copies of the list and the map. The class
methods then store the copies back. Nothing else observes the fields in
between, because the locks are not modelled.

## Model

| member | source | states |
|---|---|---|
| `LinkedList.Remove` | cookie/cookie.go:153 | Unlinking an element that is not in the list changes nothing. Otherwise the list loses exactly that element, and the list stays duplicate-free without it. |
| `LinkedList.RemoveFront` | cookie/cookie.go:149-153 | Unlinking the front element of a duplicate-free list leaves the rest of the list. |
| `LinkedList.MoveToBack` | cookie/cookie.go:109 | An element in the list becomes the last one, with the same elements and length. An element not in the list (one from an older list) leaves the list unchanged. |
| `LinkedList.MoveToBackKeepsOthersInOrder` | cookie/cookie.go:109 | Moving an element keeps all other elements in their relative order. |
| `Expiry.WholeSeconds` | cookie/cookie.go:160 | `int(d.Seconds())` truncates toward zero: the result brackets `d` between whole seconds, from below for positive `d` and from above for negative `d`. |
| `Expiry.Live` | cookie/cookie.go:160 | The validity test, also used at line 174: the zero time is never valid. For a past access, the session is valid exactly when its idle time is below `validity` whole seconds, in nanoseconds. An access in the future is valid for any positive `validity`. |
| `Expiry.LiveForAnHour` | cookie/cookie.go:55 | With the `Validity` that `init` sets, a session stays valid for less than one hour of idle time. |
| `Expiry.LiveMonotone` | cookie/cookie.go:160 | A session accessed no earlier than a valid session is valid too. |
| `ProductInstance.Split` | cookie/cookie.go:91 | `strings.Split(s, "/")` gives at least one part and no part contains `/`. Joining the parts with `/` gives back `s`. A string without `/` gives one part, and a string with a `/` gives at least two. |
| `ProductInstance.SplitAfterSegment` | cookie/cookie.go:91 | Splitting `x/y` with `x` free of `/` gives `x` followed by the parts of `y`. |
| `ProductInstance.SplitJoin` | cookie/cookie.go:91 | Splitting the join of any list of parts gives back the same parts, so split and join are inverses. |
| `ProductInstance.Stripped` | cookie/cookie.go:88-90 | Removes one leading `/`, and only when something remains after it. Otherwise the path is unchanged. |
| `ProductInstance.ProductInstanceWithURL` | cookie/cookie.go:84-96 | The empty path gives the default name. A path without `/` after the optional leading slash gives that path back. |
| `ProductInstance.FirstTwoSegments` | cookie/cookie.go:88-95 | A path of the form `a/b…` (after the optional leading slash) gives `a-b`, whatever follows `b`. |
| `ProductInstance.ExampleEmpty` | cookie/cookie.go:85-87 | `""` gives `JiangYouHua`. |
| `ProductInstance.ExampleOneSegment` | cookie/cookie.go:88-93 | `/a` gives `a`. |
| `ProductInstance.ExampleThreeSegments` | cookie/cookie.go:88-95 | `/a/b/c` gives `a-b`. |
| `ProductInstance.ExampleRoot` | cookie/cookie.go:88-95 | `/` is not stripped, because it has length 1. It splits into two empty parts and gives `-`. |
| `SessionStore.Lookup` | cookie/cookie.go:186-201 | Gives nothing exactly when the partition or the key is missing. Otherwise it gives the stored value. |
| `SessionStore.Put` | cookie/cookie.go:208-218 | The store gains the partition if it was missing. The partition binds `key` to `value`, its other keys keep their values, and the other partitions are unchanged. |
| `SessionStore.LookupPut` | cookie/cookie.go:204-220 | After a write, the written key reads back the value. Every other partition and key reads as before. |
| `SessionStore.PutNewPartition` | cookie/cookie.go:208-213 | A write into a missing partition creates it with that single entry and leaves the other partitions unchanged. |
| `SessionStore.Session.constructor` | cookie/cookie.go:122 | A new session has its token, its element, no data, an empty product instance and the current instant. |
| `SessionStore.Session.Get` | cookie/cookie.go:186-201 | Gives nothing (Go's `nil`) exactly when the current partition or the key is missing. Otherwise it gives the value stored in the current partition. |
| `SessionStore.Session.Set` | cookie/cookie.go:204-220 | The current partition binds `key` to `value`, and `Get(key)` returns it. All other keys and partitions are unchanged. |
| `Eviction.KeyOf` | cookie/cookie.go:151 | `e.Value.(string)`: a non-empty result is exactly the entry's token, and a non-string value reads as `""`. |
| `Eviction.Malformed` | cookie/cookie.go:151-152 | The test for a non-string value or an empty token holds exactly when the token read from the entry is empty. |
| `Eviction.Sweep` | cookie/cookie.go:147-168 | `Update`'s walk unlinks at most the whole list and only deletes tokens. Every session it keeps is unchanged. |
| `Eviction.SweepStopsAtValidSession` | cookie/cookie.go:160-162 | When the walk stops before the end of the list, the entry it stops at belongs to a valid session still in the map. The exception is an empty-token session reached through a malformed entry, which the walk has then unlinked. |
| `Eviction.SweepUnlinksNoValidSession` | cookie/cookie.go:149-162 | The walk stops at the first valid session. If an unlinked entry reads as the token of a valid session, it is the last entry unlinked and it is malformed: a well-formed entry of a valid session is never unlinked. |
| `Eviction.SweepDeletesExactlyExpired` | cookie/cookie.go:155-166 | A token is deleted if and only if its session has expired and one of the unlinked entries carries that token. |
| `Eviction.SweepOfSortedLeavesOnlyValid` | cookie/cookie.go:160-162 | If every entry is a token, every session has an entry and the list is in recency order, then the early return is sound: only valid sessions remain. |
| `Eviction.SweepOfSortedIsFullSweep` | cookie/cookie.go:147-183 | Under the same conditions, `Update` keeps exactly the sessions that `UpdateAll` keeps. |
| `Eviction.SweepOfStaleEntries` | cookie/cookie.go:151-158 | On a list that `UpdateAll` built, with no empty-token session, `Update` unlinks every entry and deletes nothing. |
| `Eviction.ValidEmptyTokenLosesEntry` | cookie/cookie.go:152-162 | A valid empty-token session at the front loses its entry and stays in the map, because the malformed-entry branch has no `continue`. |
| `Eviction.SortedSuffix` | cookie/cookie.go:147-168 | Dropping front entries and sessions keeps the list in recency order. With `Update`'s contract, this shows that `Update` preserves `Sorted()`. |
| `Eviction.SortedAfterMoveToBack` | cookie/cookie.go:108-109 | Refreshing a session at `now` (no earlier than any recorded access) and moving its entry to the back keeps the recency order. |
| `Eviction.SortedAfterPushBack` | cookie/cookie.go:121-122 | Appending a new token accessed at `now` keeps the recency order. |
| `Eviction.Surviving` | cookie/cookie.go:173-181 | `UpdateAll`'s filter: a session is kept exactly when it is valid at `now`, and every kept session is unchanged. |
| `Registry.Inc64` | cookie/cookie.go:129 | `Index += 1` on `int64` is the successor modulo 2^64, and the plain successor below the maximum. |
| `Registry.CorrespondenceIsOneToOne` | cookie/cookie.go:40-45 | When the map and the list are in step, each token appears on exactly one entry, and a token has a session if and only if an entry carries it. |
| `Registry.RefreshInStep` | cookie/cookie.go:107-110 | Moving an existing session's element to the back keeps the map and the list in step. |
| `Registry.RefreshKeepsOrder` | cookie/cookie.go:107-110 | Refreshing an existing session at `now` keeps the list in recency order. |
| `Registry.Refresh` | cookie/cookie.go:107-110 | For `Get` on an existing token: if the map and the list were in step they stay in step, and a sorted list stays sorted when `now` is no earlier than any recorded access. |
| `Registry.PushInStep` | cookie/cookie.go:121-127 | Pushing a new token's element and storing its session keeps the map and the list in step. |
| `Registry.Insert` | cookie/cookie.go:113-127 | For `Get` on a new token: the map and the list stay in step, and a sorted list stays sorted. |
| `Registry.DropFrontInStep` | cookie/cookie.go:164-166 | Deleting the front entry's token and unlinking the entry keeps the map and the list in step. |
| `Registry.SweepKeepsCorrespondence` | cookie/cookie.go:147-168 | If the map and the list are in step and no session has the empty token, they are still in step after `Update`. |
| `Registry.UpdateMatchesUpdateAll` | cookie/cookie.go:147-183 | On a registry in step and in recency order, `Update` deletes exactly the sessions that `UpdateAll` deletes. |
| `Registry.VisitFront` | cookie/cookie.go:150-166 | One pass of `Update`'s loop does what one step of `Sweep` does. Either it stops, or it unlinks the front and continues with the rest. |
| `Registry.Walk` | cookie/cookie.go:148-167 | `Update`'s loop leaves exactly the list suffix and the map that `Sweep` specifies. |
| `Registry.Rebuild` | cookie/cookie.go:172-181 | `UpdateAll`'s loop keeps exactly the valid sessions. The new list has one new element per survivor, in visiting order, and each element holds that survivor's old element. |
| `Registry.SessionSet.constructor` | cookie/cookie.go:48-56 | `init` gives an empty registry with `Index` 0, which is valid, in step and sorted. |
| `Registry.SessionSet.Set` | cookie/cookie.go:117-131 | Pushes a new element carrying the token and stores a new session under it, then increments `Index`. The registry stays valid. |
| `Registry.SessionSet.Get` | cookie/cookie.go:99-114 | For an existing token, gives the same session with its time set to `now` and its element moved to the back; map and counter are unchanged. For a new token, does what `Set` does. The map and the list stay in step. |
| `Registry.SessionSet.ID` | cookie/cookie.go:134-144 | Increments `Index` (wrapping as `int64`) and returns the token. |
| `Registry.SessionSet.Update` | cookie/cookie.go:147-168 | The new list is the old list minus the front entries that `Sweep` unlinks, and the new map is the one `Sweep` leaves. The counter is unchanged and the registry stays valid. |
| `Registry.SessionSet.UpdateAll` | cookie/cookie.go:171-183 | The map keeps exactly the valid sessions. The list is replaced by new elements, one per survivor, holding the survivors' old elements, so no session's own element is in the new list. |

## Left out

- `Start` is left out. It reads and sets HTTP cookies on a request and response that are not part of this model. It only composes `ID`, `Get` and `ProductInstanceWithURL`.
- `Registry.SessionSet.ID`: the token contents are not modelled. The source draws 32 random bytes, or uses the clock and `Index` when that fails, and base64-encodes the result. The token is a parameter, and only the counter update is modelled.
- The `sync.RWMutex` locks and any concurrent use of the registry are left out. Every operation runs alone.
- `Registry.SessionSet.Update`: `time.Now()` is read once per sweep as `now` rather than once per entry.
- `Registry.SessionSet.UpdateAll`: `time.Now()` is read once per sweep as `now` (the parameter of `Registry.Rebuild`) rather than once per session at line 174.
- `Expiry.WholeSeconds`: the float rounding of `Duration.Seconds()` is not modelled, and neither is the saturation of `Time.Sub` beyond about 292 years. The idle time is exact in nanoseconds.
- `Registry.SessionSet.Get` reads `Sessions.List` (the global registry) at line 109, not `ss.List`. Only one registry is modelled, so the two are the same list.
- `Registry.SessionSet.Get` does not state in its own contract that the list stays sorted by last access. `Registry.Refresh` and `Registry.Insert` state this about the new list and the new `times` that `Get`'s contract gives. Likewise, `Registry.SessionSet.Update` states keeping the map and the list in step and in order through `Registry.SweepKeepsCorrespondence` and `Eviction.SortedSuffix`, not in its own contract.
- A `nil` stored as a session value and a missing key both read as `nil` in Go. The model reads a stored value as `Some` and a missing key as `None`.
- `UpdateAll` visits the map in Go's unspecified iteration order, which the model chooses arbitrarily (the ghost result `order` records it). As a result, the rebuilt list is not in recency order.
