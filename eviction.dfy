/**
 * What the registry's two expiry sweeps do, as functions of the list, the
 * token map and the sessions' last-access instants. `Sweep` is the walk of
 * `SessionSet.Update`, `Surviving` the filter of `SessionSet.UpdateAll`;
 * `SortedByTime` is the recency order that makes the early stop of the walk
 * sound. The map's values are left generic: the sweeps only move them.
 */
module Eviction {
  import opened LinkedList
  import opened Expiry

  /** The token `Update` reads from an entry: `e.Value.(string)`, which is "" for a non-string value. */
  function KeyOf(e: Entry): (r: string)
    ensures r != "" ==> e == Key(r)
    ensures !e.Key? ==> r == ""
  {
    if e.Key? then e.key else ""
  }

  /** Entries that `Update` unlinks before looking anything up: non-string values and the empty token. */
  predicate Malformed(e: Entry): (r: bool)
    ensures r <==> KeyOf(e) == ""
  {
    !e.Key? || e.key == ""
  }

  /** How many front elements a sweep unlinked, and the token map it leaves. */
  datatype Swept<S> = Swept(dropped: nat, values: map<string, S>) {
    function Shifted(d: nat): Swept<S> {
      Swept(dropped + d, values)
    }
  }

  /**
   * The walk of `Update` from the front of `l`: an entry whose token is not
   * in the map is unlinked; an entry whose session has expired is unlinked
   * and its token deleted; the walk ends at the first valid session, after
   * unlinking that session's entry only when it is malformed.
   */
  function Sweep<S>(l: seq<Element>, values: map<string, S>, times: map<string, nat>, now: nat, validity: int): (r: Swept<S>)
    requires values.Keys <= times.Keys
    ensures r.dropped <= |l|
    ensures r.values.Keys <= values.Keys
    ensures forall k :: k in r.values ==> r.values[k] == values[k]
    decreases |l|
  {
    if l == [] then Swept(0, values)
    else
      var k := KeyOf(l[0].value);
      if k !in values then Sweep(l[1..], values, times, now, validity).Shifted(1)
      else if Live(times[k], now, validity) then Swept(if Malformed(l[0].value) then 1 else 0, values)
      else Sweep(l[1..], values - {k}, times, now, validity).Shifted(1)
  }

  /** One step of the walk, at the front entry. */
  lemma SweepStep<S>(l: seq<Element>, values: map<string, S>, times: map<string, nat>, now: nat, validity: int)
    requires values.Keys <= times.Keys && |l| > 0
    ensures var k := KeyOf(l[0].value);
      Sweep(l, values, times, now, validity)
        == if k !in values then Sweep(l[1..], values, times, now, validity).Shifted(1)
           else if Live(times[k], now, validity) then Swept(if Malformed(l[0].value) then 1 else 0, values)
           else Sweep(l[1..], values - {k}, times, now, validity).Shifted(1)
  {
  }

  /**
   * Where the walk stops: at a well-formed entry of a valid session that is
   * still in the map, unless the valid session was reached through a
   * malformed entry, which the walk has then unlinked.
   */
  lemma {:induction false} SweepStopsAtValidSession<S>(l: seq<Element>, values: map<string, S>, times: map<string, nat>, now: nat, validity: int)
    requires values.Keys <= times.Keys
    ensures var r := Sweep(l, values, times, now, validity);
      r.dropped < |l| ==>
        || (!Malformed(l[r.dropped].value) && l[r.dropped].value.key in r.values
            && Live(times[l[r.dropped].value.key], now, validity))
        || (0 < r.dropped && Malformed(l[r.dropped - 1].value) && "" in r.values && Live(times[""], now, validity))
    decreases |l|
  {
    if l != [] {
      var k := KeyOf(l[0].value);
      if k !in values {
        SweepStopsAtValidSession(l[1..], values, times, now, validity);
      } else if !Live(times[k], now, validity) {
        SweepStopsAtValidSession(l[1..], values - {k}, times, now, validity);
      }
    }
  }

  /**
   * The walk stops at the first valid session: an unlinked entry that reads
   * as the token of a valid session is the last one unlinked, and it is
   * malformed (the entry of an empty-token session, unlinked without a
   * `continue`). No well-formed entry of a valid session is ever unlinked.
   */
  lemma {:induction false} SweepUnlinksNoValidSession<S>(l: seq<Element>, values: map<string, S>, times: map<string, nat>, now: nat, validity: int, j: nat)
    requires values.Keys <= times.Keys
    requires j < Sweep(l, values, times, now, validity).dropped
    requires KeyOf(l[j].value) in values && Live(times[KeyOf(l[j].value)], now, validity)
    ensures j == Sweep(l, values, times, now, validity).dropped - 1 && Malformed(l[j].value)
    decreases |l|
  {
    var k0 := KeyOf(l[0].value);
    if j > 0 && (k0 !in values || !Live(times[k0], now, validity)) {
      var rest := if k0 !in values then values else values - {k0};
      assert l[1..][j - 1] == l[j];
      SweepUnlinksNoValidSession(l[1..], rest, times, now, validity, j - 1);
    }
  }

  /**
   * A token of the map is deleted exactly when its session has expired and
   * one of the unlinked entries carries it; every other entry is only
   * unlinked from the list.
   */
  lemma {:induction false} SweepDeletesExactlyExpired<S>(l: seq<Element>, values: map<string, S>, times: map<string, nat>, now: nat, validity: int, k: string)
    requires values.Keys <= times.Keys
    requires k in values
    ensures var r := Sweep(l, values, times, now, validity);
      k !in r.values <==>
        !Live(times[k], now, validity) && exists j :: 0 <= j < r.dropped && KeyOf(l[j].value) == k
    decreases |l|
  {
    if l != [] {
      var r := Sweep(l, values, times, now, validity);
      var k0 := KeyOf(l[0].value);
      if k0 !in values || (k != k0 && !Live(times[k0], now, validity)) {
        var rest := if k0 !in values then values else values - {k0};
        var r' := Sweep(l[1..], rest, times, now, validity);
        SweepDeletesExactlyExpired(l[1..], rest, times, now, validity, k);
        assert r == r'.Shifted(1);
        if exists j :: 0 <= j < r'.dropped && KeyOf(l[1..][j].value) == k {
          var j :| 0 <= j < r'.dropped && KeyOf(l[1..][j].value) == k;
          assert KeyOf(l[j + 1].value) == k;
        }
        if exists j :: 0 <= j < r.dropped && KeyOf(l[j].value) == k {
          var j :| 0 <= j < r.dropped && KeyOf(l[j].value) == k;
          assert j != 0;
          assert KeyOf(l[1..][j - 1].value) == k;
        }
      } else if !Live(times[k0], now, validity) {
        assert KeyOf(l[0].value) == k;
      }
    }
  }

  /** Ascending last access along the list, over the entries that carry a known token. */
  predicate SortedByTime(l: seq<Element>, times: map<string, nat>) {
    forall i, j :: 0 <= i < j < |l| && l[i].value.Key? && l[j].value.Key?
      && l[i].value.key in times && l[j].value.key in times
      ==> times[l[i].value.key] <= times[l[j].value.key]
  }

  /**
   * The early stop is sound: when every entry carries a token, every token of
   * the map has an entry and the list is in ascending last-access order, the
   * sweep leaves only valid sessions in the map.
   */
  lemma {:induction false} SweepOfSortedLeavesOnlyValid<S>(l: seq<Element>, values: map<string, S>, times: map<string, nat>, now: nat, validity: int)
    requires values.Keys <= times.Keys
    requires forall i :: 0 <= i < |l| ==> l[i].value.Key?
    requires forall k :: k in values ==> exists i :: 0 <= i < |l| && l[i].value == Key(k)
    requires SortedByTime(l, times)
    ensures var r := Sweep(l, values, times, now, validity);
      forall k :: k in r.values ==> Live(times[k], now, validity)
    decreases |l|
  {
    if l != [] {
      var k0 := KeyOf(l[0].value);
      var rest := if k0 !in values then values else values - {k0};
      forall k | k in rest ensures exists i :: 0 <= i < |l[1..]| && l[1..][i].value == Key(k) {
        var i :| 0 <= i < |l| && l[i].value == Key(k);
        assert i != 0;
        assert l[1..][i - 1].value == Key(k);
      }
      if k0 !in values || !Live(times[k0], now, validity) {
        SweepOfSortedLeavesOnlyValid(l[1..], rest, times, now, validity);
      } else {
        forall k | k in values ensures Live(times[k], now, validity) {
          var i :| 0 <= i < |l| && l[i].value == Key(k);
          if i != 0 {
            LiveMonotone(times[k0], times[k], now, validity);
          }
        }
      }
    }
  }

  /**
   * After `UpdateAll` every entry holds an element, which reads as the token
   * "": when no session has that token, `Update` unlinks the whole list and
   * deletes nothing, expired or not.
   */
  lemma {:induction false} SweepOfStaleEntries<S>(l: seq<Element>, values: map<string, S>, times: map<string, nat>, now: nat, validity: int)
    requires values.Keys <= times.Keys
    requires forall i :: 0 <= i < |l| ==> l[i].value.Stale?
    requires "" !in values
    ensures Sweep(l, values, times, now, validity) == Swept(|l|, values)
    decreases |l|
  {
    if l != [] {
      SweepOfStaleEntries(l[1..], values, times, now, validity);
    }
  }

  /** A valid session with the empty token at the front loses its list entry but stays in the map. */
  lemma ValidEmptyTokenLosesEntry<S>(l: seq<Element>, values: map<string, S>, times: map<string, nat>, now: nat, validity: int)
    requires values.Keys <= times.Keys
    requires |l| > 0 && l[0].value == Key("") && "" in values && Live(times[""], now, validity)
    ensures Sweep(l, values, times, now, validity) == Swept(1, values)
  {
  }

  /** The sessions `UpdateAll` keeps: those still valid at `now`, unchanged. */
  function Surviving<S>(values: map<string, S>, times: map<string, nat>, now: nat, validity: int): (r: map<string, S>)
    requires values.Keys <= times.Keys
    ensures forall k :: k in values ==> (k in r <==> Live(times[k], now, validity))
    ensures forall k :: k in r ==> k in values && r[k] == values[k]
  {
    map k | k in values && Live(times[k], now, validity) :: values[k]
  }

  /**
   * Under the same conditions as `SweepOfSortedLeavesOnlyValid`, the walk
   * from the front deletes exactly the sessions the full sweep deletes.
   */
  lemma SweepOfSortedIsFullSweep<S>(l: seq<Element>, values: map<string, S>, times: map<string, nat>, now: nat, validity: int)
    requires values.Keys <= times.Keys
    requires forall i :: 0 <= i < |l| ==> l[i].value.Key?
    requires forall k :: k in values ==> exists i :: 0 <= i < |l| && l[i].value == Key(k)
    requires SortedByTime(l, times)
    ensures Sweep(l, values, times, now, validity).values == Surviving(values, times, now, validity)
  {
    var r := Sweep(l, values, times, now, validity);
    var s := Surviving(values, times, now, validity);
    SweepOfSortedLeavesOnlyValid(l, values, times, now, validity);
    forall k | k in s ensures k in r.values {
      SweepDeletesExactlyExpired(l, values, times, now, validity, k);
    }
    assert r.values.Keys == s.Keys;
  }

  /** Dropping front entries and sessions keeps the list in recency order. */
  lemma SortedSuffix(l: seq<Element>, d: nat, times: map<string, nat>, times': map<string, nat>)
    requires d <= |l| && SortedByTime(l, times)
    requires forall k :: k in times' ==> k in times && times'[k] == times[k]
    ensures SortedByTime(l[d..], times')
  {
    forall i, j | 0 <= i < j < |l[d..]| && l[d..][i].value.Key? && l[d..][j].value.Key?
      && l[d..][i].value.key in times' && l[d..][j].value.key in times'
      ensures times'[l[d..][i].value.key] <= times'[l[d..][j].value.key]
    {
      assert l[d..][i] == l[i + d] && l[d..][j] == l[j + d];
    }
  }

  /**
   * Refreshing a session at `now`, no earlier than any recorded access, and
   * moving its entry to the back keeps the list in recency order.
   */
  lemma SortedAfterMoveToBack(l: seq<Element>, p: nat, times: map<string, nat>, now: nat)
    requires p < |l| && l[p].value.Key? && SortedByTime(l, times)
    requires forall i :: 0 <= i < |l| && i != p && l[i].value.Key? ==> l[i].value.key != l[p].value.key
    requires forall k :: k in times ==> times[k] <= now
    ensures SortedByTime(l[..p] + l[p + 1..] + [l[p]], times[l[p].value.key := now])
  {
    var key := l[p].value.key;
    var t := times[key := now];
    var m := l[..p] + l[p + 1..] + [l[p]];
    forall i, j | 0 <= i < j < |m| && m[i].value.Key? && m[j].value.Key?
      && m[i].value.key in t && m[j].value.key in t
      ensures t[m[i].value.key] <= t[m[j].value.key]
    {
      var oi := if i < p then i else i + 1;
      assert m[i] == l[oi];
      if j < |m| - 1 {
        var oj := if j < p then j else j + 1;
        assert m[j] == l[oj];
      }
    }
  }

  /** Appending a fresh token accessed at `now`, no earlier than any recorded access, keeps the order. */
  lemma SortedAfterPushBack(l: seq<Element>, e: Element, times: map<string, nat>, now: nat)
    requires e.value.Key? && SortedByTime(l, times)
    requires forall i :: 0 <= i < |l| && l[i].value.Key? ==> l[i].value.key != e.value.key
    requires forall k :: k in times ==> times[k] <= now
    ensures SortedByTime(l + [e], times[e.value.key := now])
  {
    var t := times[e.value.key := now];
    var m := l + [e];
    forall i, j | 0 <= i < j < |m| && m[i].value.Key? && m[j].value.Key?
      && m[i].value.key in t && m[j].value.key in t
      ensures t[m[i].value.key] <= t[m[j].value.key]
    {
      assert m[i] == l[i];
      if j < |l| {
        assert m[j] == l[j];
      }
    }
  }
}
