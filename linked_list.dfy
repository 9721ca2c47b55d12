/**
 * The part of Go's `container/list` that the session registry relies on.
 * A list is the sequence of its elements, front first; an element is an
 * object, so two elements holding the same value are still different
 * elements, and an element that has been unlinked (or belongs to another
 * list) is simply not in the sequence.
 */
module LinkedList {

  /**
   * What an element of the registry's list can hold: a session token (what
   * `SessionSet.Set` pushes) or another element (what `SessionSet.UpdateAll`
   * pushes: the session's old `*list.Element`).
   */
  datatype Entry = Key(key: string) | Stale(target: Element)

  class Element {
    const value: Entry

    constructor (value: Entry)
      ensures this.value == value
    {
      this.value := value;
    }
  }

  /** A linked list never holds the same element twice. */
  predicate Distinct(l: seq<Element>) {
    forall i, j :: 0 <= i < j < |l| ==> l[i] != l[j]
  }

  /** Position of `e` in `l`: the first index holding it. */
  function IndexOf(l: seq<Element>, e: Element): (p: nat)
    requires e in l
    ensures p < |l| && l[p] == e && e !in l[..p]
  {
    if l[0] == e then 0 else 1 + IndexOf(l[1..], e)
  }

  /** `l.Remove(e)`: unlinks `e` when it belongs to the list, and does nothing otherwise. */
  function Remove(l: seq<Element>, e: Element): (r: seq<Element>)
    ensures e !in l ==> r == l
    ensures e in l ==> |r| == |l| - 1 && multiset(r) == multiset(l) - multiset{e}
    ensures Distinct(l) ==> Distinct(r) && e !in r
  {
    if e !in l then l
    else
      var p := IndexOf(l, e);
      assert l == l[..p] + [e] + l[p + 1..];
      assert multiset(l) == multiset(l[..p]) + multiset{e} + multiset(l[p + 1..]);
      var r := l[..p] + l[p + 1..];
      assert Distinct(l) ==> Distinct(r) by {
        if Distinct(l) {
          forall i, j | 0 <= i < j < |r| ensures r[i] != r[j] {
            var oi := if i < p then i else i + 1;
            var oj := if j < p then j else j + 1;
            assert r[i] == l[oi] && r[j] == l[oj];
          }
        }
      }
      r
  }

  /** Unlinking the front element leaves the rest; it is then no longer in the list. */
  lemma RemoveFront(l: seq<Element>)
    requires Distinct(l) && |l| > 0
    ensures Remove(l, l[0]) == l[1..] && l[0] !in l[1..]
  {
    assert l[..0] + l[1..] == l[1..];
  }

  /**
   * `l.MoveToBack(e)`: when `e` belongs to the list it becomes the last
   * element and the others keep their order; an element of another list
   * (or an unlinked one) leaves the list as it was.
   */
  function MoveToBack(l: seq<Element>, e: Element): (r: seq<Element>)
    ensures e !in l ==> r == l
    ensures e in l ==> |r| == |l| && r[|r| - 1] == e && multiset(r) == multiset(l)
    ensures Distinct(l) ==> Distinct(r)
  {
    if e in l then Remove(l, e) + [e] else l
  }

  /** Moving an element of the list leaves the others in their relative order. */
  lemma MoveToBackKeepsOthersInOrder(l: seq<Element>, e: Element)
    requires Distinct(l) && e in l
    ensures var p := IndexOf(l, e);
      MoveToBack(l, e) == l[..p] + l[p + 1..] + [e]
  {
  }
}
