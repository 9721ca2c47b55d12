/**
 * The session registry (`SessionSet`): a token-to-session map paired with a
 * list of the tokens in order of last access, oldest at the front, and a
 * counter of sessions created.
 */
module Registry {
  import opened LinkedList
  import opened Expiry
  import opened SessionStore
  import opened Eviction

  /** Go's `int64`. */
  newtype int64 = x: int | -0x8000_0000_0000_0000 <= x < 0x8000_0000_0000_0000

  const MaxInt64: int64 := 0x7fff_ffff_ffff_ffff
  const MinInt64: int64 := -0x8000_0000_0000_0000

  /** `i + 1` on `int64`, which wraps from the largest value to the smallest. */
  function Inc64(i: int64): (r: int64)
    ensures (r as int - i as int - 1) % 0x1_0000_0000_0000_0000 == 0
    ensures i < MaxInt64 ==> r as int == i as int + 1
  {
    if i == MaxInt64 then MinInt64 else i + 1
  }

  /**
   * The map and the list are in step: every list element carries the token
   * of a session whose own element it is, and every session's element is in
   * the list carrying that session's token.
   */
  ghost predicate Corresponds<V>(list: seq<Element>, values: map<string, Session<V>>) {
    && (forall i :: 0 <= i < |list| ==>
          list[i].value.Key? && list[i].value.key in values && values[list[i].value.key].element == list[i])
    && (forall k :: k in values ==> values[k].element in list && values[k].element.value == Key(k))
  }

  /** In step, each token of the map appears in the list exactly once, and nothing else does. */
  lemma CorrespondenceIsOneToOne<V>(list: seq<Element>, values: map<string, Session<V>>)
    requires Distinct(list) && Corresponds(list, values)
    ensures forall i, j :: 0 <= i < j < |list| ==> list[i].value.key != list[j].value.key
    ensures forall k :: k in values <==> exists i :: 0 <= i < |list| && list[i].value == Key(k)
  {
    forall k | k in values ensures exists i :: 0 <= i < |list| && list[i].value == Key(k) {
      var i :| 0 <= i < |list| && list[i] == values[k].element;
    }
  }

  /** Being in step depends only on which elements the list holds. */
  lemma CorrespondsOnSameElements<V>(list: seq<Element>, m: seq<Element>, values: map<string, Session<V>>)
    requires Corresponds(list, values)
    requires forall x :: x in m <==> x in list
    ensures Corresponds(m, values)
  {
    forall i | 0 <= i < |m|
      ensures m[i].value.Key? && m[i].value.key in values && values[m[i].value.key].element == m[i]
    {
      assert m[i] in list;
    }
  }

  /** Moving a session's own element to the back keeps map and list in step. */
  lemma RefreshInStep<V>(list: seq<Element>, values: map<string, Session<V>>, key: string)
    requires Corresponds(list, values) && key in values
    ensures Corresponds(MoveToBack(list, values[key].element), values)
  {
    var m := MoveToBack(list, values[key].element);
    forall x ensures x in m <==> x in list {
      assert x in m <==> x in multiset(m);
    }
    CorrespondsOnSameElements(list, m, values);
  }

  /** In step, the element of the session under `key` is the only one carrying `key`. */
  lemma OnlyEntryOfKey<V>(list: seq<Element>, values: map<string, Session<V>>, key: string)
    requires Distinct(list) && Corresponds(list, values) && key in values
    ensures var p := IndexOf(list, values[key].element);
      forall i :: 0 <= i < |list| && i != p && list[i].value.Key? ==> list[i].value.key != list[p].value.key
  {
  }

  /** Refreshing a session at `now`, no earlier than any recorded access, keeps the list in recency order. */
  lemma RefreshKeepsOrder<V>(list: seq<Element>, values: map<string, Session<V>>, times: map<string, nat>, key: string, now: nat)
    requires Distinct(list) && Corresponds(list, values) && key in values
    requires SortedByTime(list, times) && forall k :: k in times ==> times[k] <= now
    ensures SortedByTime(MoveToBack(list, values[key].element), times[key := now])
  {
    var e := values[key].element;
    MoveToBackKeepsOthersInOrder(list, e);
    OnlyEntryOfKey(list, values, key);
    SortedAfterMoveToBack(list, IndexOf(list, e), times, now);
  }

  /** Everything `Get` promises about the list when it refreshes the session under `key`. */
  lemma Refresh<V>(list: seq<Element>, values: map<string, Session<V>>, times: map<string, nat>, key: string, now: nat)
    requires Distinct(list) && key in values
    ensures Corresponds(list, values) ==> Corresponds(MoveToBack(list, values[key].element), values)
    ensures Corresponds(list, values) && SortedByTime(list, times) && (forall k :: k in times ==> times[k] <= now) ==>
      SortedByTime(MoveToBack(list, values[key].element), times[key := now])
  {
    if Corresponds(list, values) {
      RefreshInStep(list, values, key);
      if SortedByTime(list, times) && forall k :: k in times ==> times[k] <= now {
        RefreshKeepsOrder(list, values, times, key, now);
      }
    }
  }

  /** Pushing a new token's element and storing its session keeps map and list in step. */
  lemma PushInStep<V>(list: seq<Element>, values: map<string, Session<V>>, key: string, s: Session<V>)
    requires Corresponds(list, values) && key !in values
    requires s.element.value == Key(key) && s.element !in list
    ensures Corresponds(list + [s.element], values[key := s])
  {
  }

  /** Everything `Get` promises about the list when it creates a session under a new `key`. */
  lemma Insert<V>(list: seq<Element>, values: map<string, Session<V>>, times: map<string, nat>, key: string, s: Session<V>, now: nat)
    requires key !in values && s.element.value == Key(key) && s.element !in list
    ensures Corresponds(list, values) ==> Corresponds(list + [s.element], values[key := s])
    ensures Corresponds(list, values) && SortedByTime(list, times) && (forall k :: k in times ==> times[k] <= now) ==>
      SortedByTime(list + [s.element], times[key := now])
  {
    if Corresponds(list, values) {
      PushInStep(list, values, key, s);
      if SortedByTime(list, times) && forall k :: k in times ==> times[k] <= now {
        SortedAfterPushBack(list, s.element, times, now);
      }
    }
  }

  /** Unlinking the front element and deleting its token keeps map and list in step. */
  lemma DropFrontInStep<V>(list: seq<Element>, values: map<string, Session<V>>)
    requires Distinct(list) && Corresponds(list, values) && |list| > 0
    ensures Corresponds(list[1..], values - {list[0].value.key})
  {
    var k := list[0].value.key;
    forall k' | k' in values - {k} ensures values[k'].element in list[1..] {
      assert values[k'].element != list[0];
    }
  }

  /**
   * When map and list are in step and no session has the empty token, the
   * sweep only unlinks entries whose sessions it deletes, so they stay in step.
   */
  lemma {:induction false} SweepKeepsCorrespondence<V>(list: seq<Element>, values: map<string, Session<V>>, times: map<string, nat>, now: nat, validity: int)
    requires values.Keys <= times.Keys
    requires Distinct(list) && Corresponds(list, values) && "" !in values
    ensures var r := Sweep(list, values, times, now, validity);
      Corresponds(list[r.dropped..], r.values)
    decreases |list|
  {
    if list != [] {
      SweepStep(list, values, times, now, validity);
      var k := list[0].value.key;
      if !Live(times[k], now, validity) {
        DropFrontInStep(list, values);
        SweepKeepsCorrespondence(list[1..], values - {k}, times, now, validity);
        var r := Sweep(list[1..], values - {k}, times, now, validity);
        assert list[1..][r.dropped..] == list[r.dropped + 1..];
      }
    }
  }

  /**
   * On a registry whose map and list are in step and whose list is in
   * recency order, `Update` deletes exactly the sessions `UpdateAll` deletes.
   */
  lemma UpdateMatchesUpdateAll<V>(list: seq<Element>, values: map<string, Session<V>>, times: map<string, nat>, now: nat, validity: int)
    requires values.Keys <= times.Keys
    requires Distinct(list) && Corresponds(list, values) && SortedByTime(list, times)
    ensures Sweep(list, values, times, now, validity).values == Surviving(values, times, now, validity)
  {
    CorrespondenceIsOneToOne(list, values);
    SweepOfSortedIsFullSweep(list, values, times, now, validity);
  }

  /** Each session sits under its own token, and `times` records its last access. */
  ghost predicate Stamped<V>(values: map<string, Session<V>>, times: map<string, nat>)
    reads values.Values
  {
    && times.Keys == values.Keys
    && forall k :: k in values ==> values[k].id == k && values[k].time == times[k]
  }

  /** Deleting sessions from the map and their instants from `times` keeps them stamped. */
  lemma StampedRestrict<V>(values: map<string, Session<V>>, times: map<string, nat>, kept: map<string, Session<V>>)
    requires Stamped(values, times)
    requires kept.Keys <= values.Keys && forall k :: k in kept ==> kept[k] == values[k]
    ensures Stamped(kept, times - (values.Keys - kept.Keys))
  {
  }

  /**
   * One pass of `Update`'s loop, at the front element `e` of `front`: a
   * malformed entry is unlinked first; an entry whose token has no session
   * is unlinked and the walk goes on; a valid session stops the walk; an
   * expired one is deleted and unlinked and the walk goes on. `times`
   * mirrors the sessions' last-access instants.
   */
  method VisitFront<V>(front: seq<Element>, sessions: map<string, Session<V>>, now: nat, validity: int, ghost times: map<string, nat>)
    returns (rest: seq<Element>, kept: map<string, Session<V>>, stop: bool)
    requires Distinct(front) && |front| > 0 && sessions.Keys <= times.Keys
    requires forall k :: k in sessions ==> sessions[k].time == times[k]
    ensures Distinct(rest)
    ensures kept.Keys <= sessions.Keys && forall k :: k in kept ==> kept[k] == sessions[k]
    ensures stop ==>
      && kept == sessions && (rest == front || rest == front[1..])
      && Sweep(front, sessions, times, now, validity) == Swept(|front| - |rest|, kept)
    ensures !stop ==>
      && rest == front[1..]
      && Sweep(front, sessions, times, now, validity) == Sweep(rest, kept, times, now, validity).Shifted(1)
  {
    // `e` is always the front: every pass that goes on unlinks it, so `e.Next()` is the new front.
    var e := front[0];
    RemoveFront(front);
    SweepStep(front, sessions, times, now, validity);
    var k := if e.value.Key? then e.value.key else "";
    assert k == KeyOf(e.value);
    rest, kept := front, sessions;
    if !e.value.Key? || k == "" {
      rest := Remove(rest, e);
      assert rest == front[1..];
    }
    if k !in kept {
      rest := Remove(rest, e);
      assert rest == front[1..];
      return rest, kept, false;
    }
    if Live(kept[k].time, now, validity) {
      assert rest == front[if Malformed(e.value) then 1 else 0..];
      return rest, kept, true;
    }
    assert rest == front || rest == front[1..];
    kept := kept - {k};
    rest := Remove(rest, e);
    assert rest == front[1..];
    return rest, kept, false;
  }

  /**
   * The loop of `Update`, from the front of `list`: each pass visits the
   * front element and either stops or unlinks it and goes on. `times`
   * mirrors the sessions' last-access instants.
   */
  method Walk<V>(list: seq<Element>, values: map<string, Session<V>>, now: nat, validity: int, ghost times: map<string, nat>)
    returns (front: seq<Element>, sessions: map<string, Session<V>>)
    requires Distinct(list) && Stamped(values, times)
    ensures var r := Sweep(list, values, times, now, validity);
      front == list[r.dropped..] && sessions == r.values
    ensures Distinct(front) && Stamped(sessions, times - (values.Keys - sessions.Keys))
  {
    ghost var target := Sweep(list, values, times, now, validity);
    ghost var d: nat := 0;
    front, sessions := list, values;
    while |front| > 0
      invariant Distinct(front) && d <= |list| && front == list[d..]
      invariant sessions.Keys <= values.Keys && forall k :: k in sessions ==> sessions[k] == values[k]
      invariant target == Sweep(front, sessions, times, now, validity).Shifted(d)
      decreases |front|
    {
      var stop;
      ghost var here := front;
      front, sessions, stop := VisitFront(front, sessions, now, validity, times);
      if stop {
        d := d + (|here| - |front|);
        break;
      }
      assert list[d..][1..] == list[d + 1..];
      d := d + 1;
    }
    assert target == Swept(d, sessions) && front == list[d..];
    StampedRestrict(values, times, sessions);
  }

  /**
   * The loop of `UpdateAll` over the token map, visited in an arbitrary
   * order: a valid session is kept and a new element holding its old
   * element is pushed onto a new list; an expired one is deleted. `times`
   * mirrors the sessions' last-access instants, and `order` records the
   * visiting order of the survivors.
   */
  method Rebuild<V>(values: map<string, Session<V>>, now: nat, validity: int, ghost times: map<string, nat>)
    returns (kept: map<string, Session<V>>, rebuilt: seq<Element>, ghost order: seq<string>)
    requires Stamped(values, times)
    ensures kept == Surviving(values, times, now, validity)
    ensures Stamped(kept, times - (values.Keys - kept.Keys))
    ensures |order| == |rebuilt| && Distinct(rebuilt)
    ensures forall i, j :: 0 <= i < j < |order| ==> order[i] != order[j]
    ensures forall k :: k in kept <==> k in order
    ensures forall i :: 0 <= i < |rebuilt| ==>
      order[i] in kept && fresh(rebuilt[i]) && rebuilt[i].value == Stale(kept[order[i]].element)
  {
    kept := values;
    var remaining := values.Keys;
    rebuilt := [];
    order := [];
    while remaining != {}
      invariant remaining <= values.Keys
      invariant forall k :: k in kept <==> k in values && (k in remaining || Live(times[k], now, validity))
      invariant forall k :: k in kept ==> kept[k] == values[k]
      invariant |order| == |rebuilt| && Distinct(rebuilt)
      invariant forall i, j :: 0 <= i < j < |order| ==> order[i] != order[j]
      invariant forall i :: 0 <= i < |order| ==>
        order[i] in kept && order[i] !in remaining && fresh(rebuilt[i])
        && rebuilt[i].value == Stale(kept[order[i]].element)
      invariant forall k :: k in kept && k !in remaining ==> k in order
      decreases remaining
    {
      var key :| key in remaining;
      remaining := remaining - {key};
      var val := kept[key];
      if Live(val.time, now, validity) {
        var e := new Element(Stale(val.element));
        rebuilt := rebuilt + [e];
        order := order + [key];
        continue;
      }
      kept := kept - {key};
    }
    assert kept == Surviving(values, times, now, validity);
    StampedRestrict(values, times, kept);
  }

  class SessionSet<V> {
    var index: int64
    var values: map<string, Session<V>>
    var list: seq<Element>
    /** The last access of every session, by token. */
    ghost var times: map<string, nat>

    /** The list is a list, and `times` records the sessions of the map. */
    ghost predicate Valid()
      reads this, values.Values
    {
      Distinct(list) && Stamped(values, times)
    }

    /** The map and the list are in step. */
    ghost predicate Consistent()
      reads this
    {
      Corresponds(list, values)
    }

    /** The list is in ascending last-access order. */
    ghost predicate Sorted()
      reads this
    {
      SortedByTime(list, times)
    }

    /** The registry as `init` creates it. */
    constructor ()
      ensures Valid() && Consistent() && Sorted()
      ensures index == 0 && values == map[] && list == []
    {
      index := 0;
      values := map[];
      list := [];
      times := map[];
    }

    /** Adds a new session under `key`, accessed at `now`, at the back of the list. */
    method Set(key: string, now: nat) returns (s: Session<V>)
      requires Valid()
      modifies this
      ensures Valid()
      ensures fresh(s) && fresh(s.element) && s.element.value == Key(key)
      ensures s.id == key && s.values == map[] && s.time == now && s.productInstance == ""
      ensures values == old(values)[key := s] && list == old(list) + [s.element]
      ensures times == old(times)[key := now] && index == Inc64(old(index))
    {
      var e := new Element(Key(key));
      list := list + [e];
      s := new Session(key, now, e);
      values := values[key := s];
      times := times[key := now];
      index := Inc64(index);
    }

    /**
     * The session for `key` at `now`: an existing one is refreshed and moved
     * to the back of the list, a missing one is created by `Set`.
     */
    method Get(key: string, now: nat) returns (s: Session<V>)
      requires Valid()
      modifies this, if key in values then {values[key]} else {}
      ensures Valid()
      ensures key in old(values) ==>
        && s == old(values[key]) && values == old(values) && index == old(index)
        && s.time == now && s.values == old(s.values) && s.productInstance == old(s.productInstance)
        && list == MoveToBack(old(list), s.element)
      ensures key !in old(values) ==>
        && fresh(s) && fresh(s.element) && s.element.value == Key(key)
        && s.id == key && s.values == map[] && s.time == now
        && values == old(values)[key := s] && list == old(list) + [s.element]
        && index == Inc64(old(index))
      ensures times == old(times)[key := now]
      ensures old(Consistent()) ==> Consistent()
    {
      ghost var list0, values0, times0 := list, values, times;
      if key in values {
        s := values[key];
        s.time := now;
        times := times[key := now];
        list := MoveToBack(list, s.element);
        forall k | k in values ensures values[k].time == times[k] {
          if k != key {
            assert values[k].id != s.id;
          }
        }
        Refresh(list0, values0, times0, key, now);
        return;
      }
      s := Set(key, now);
      Insert(list0, values0, times0, key, s, now);
    }

    /** Counts a new token; `token` stands for the random token the source generates. */
    method ID(token: string) returns (id: string)
      modifies this`index
      ensures id == token && index == Inc64(old(index))
    {
      index := Inc64(index);
      id := token;
    }

    /**
     * The expiry sweep from the front of the list, stopping at the first
     * session still valid at `now`.
     */
    method Update(now: nat, validity: int)
      requires Valid()
      modifies this`values, this`list, this`times
      ensures Valid() && index == old(index)
      ensures var r := Sweep(old(list), old(values), old(times), now, validity);
        list == old(list)[r.dropped..] && values == r.values
    {
      ghost var values0, times0 := values, times;
      var front, sessions := Walk(list, values, now, validity, times);
      list, values, times := front, sessions, times0 - (values0.Keys - sessions.Keys);
    }

    /**
     * The full sweep: deletes every session that is no longer valid and
     * replaces the list by one holding, for each survivor in map iteration
     * order (`order`), a new element whose value is the survivor's old
     * element.
     */
    method UpdateAll(now: nat, validity: int) returns (ghost order: seq<string>)
      requires Valid()
      modifies this`values, this`list, this`times
      ensures Valid() && index == old(index)
      ensures values == Surviving(old(values), old(times), now, validity)
      ensures |order| == |list| && forall i, j :: 0 <= i < j < |order| ==> order[i] != order[j]
      ensures forall k :: k in values <==> k in order
      ensures forall i :: 0 <= i < |list| ==>
        order[i] in values && fresh(list[i]) && list[i].value == Stale(values[order[i]].element)
      ensures forall k :: k in values ==> values[k].element !in list
    {
      ghost var values0, times0 := values, times;
      var sessions, rebuilt;
      sessions, rebuilt, order := Rebuild(values, now, validity, times);
      ghost var stamps := times0 - (values0.Keys - sessions.Keys);
      assert Stamped(sessions, stamps);
      values, list, times := sessions, rebuilt, stamps;
    }
  }
}
