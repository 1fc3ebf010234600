/** Saving and restoring an aggregator: what a restored state is, and when it is the saved one. */
module Snapshots {
  import opened Spans
  import opened Buckets
  import opened Forest
  import opened Survival
  import opened Ledger
  import opened Chains
  import opened Reference

  datatype Snapshot = Snapshot(
    spansInOrder: seq<WireSpan>, pending: Pool, splitKeys: set<string>, historyBudget: nat)

  /** The pool as a list, lowest missing parent first. */
  ghost function Flatten(m: Pool): (r: seq<WireSpan>)
    ensures multiset(r) == PoolSpans(m)
    decreases |m|
  {
    if m == map[] then []
    else
      var k := Least(m.Keys);
      m[k] + Flatten(m - {k})
  }

  ghost predicate HaveParents(ws: seq<WireSpan>) {
    forall w :: w in ws ==> w.parent.Some?
  }

  ghost function ParkAll(c: Core, ws: seq<WireSpan>): Core
    requires HaveParents(ws)
    decreases |ws|
  {
    if ws == [] then c
    else
      assert ws[0] in ws;
      assert HaveParents(ws[1..]);
      ParkAll(Park(c, ws[0]), ws[1..])
  }

  ghost predicate Keyed(m: Pool) {
    forall k :: k in m ==> WaitersFor(k, m[k])
  }

  lemma {:induction false} FlattenKeyed(m: Pool)
    requires Keyed(m)
    ensures HaveParents(Flatten(m)) && AllClosed(Flatten(m))
    ensures forall w :: w in Flatten(m) ==> w.parent.value in m
    decreases |m|
  {
    if m == map[] {
    } else {
      var k := Least(m.Keys);
      FlattenKeyed(m - {k});
      forall w | w in Flatten(m) ensures w.parent.Some? && w.closedAt.Some? && w.parent.value in m {
        if w in m[k] {
          assert WaitersFor(k, m[k]);
        } else {
          assert w in Flatten(m - {k});
        }
      }
    }
  }

  lemma {:induction false} ParkAllKeepsRing(c: Core, ws: seq<WireSpan>)
    requires HaveParents(ws)
    ensures var d := ParkAll(c, ws);
            d.log == c.log && d.start == c.start && d.budget == c.budget && d.cap == c.cap
    decreases |ws|
  {
    if ws == [] {
    } else {
      assert ws[0] in ws;
      ParkAllKeepsRing(Park(c, ws[0]), ws[1..]);
    }
  }

  /** Absorb the ring into an empty aggregator, then park the pool again. */
  ghost function Restored(c: Core): (d: Core)
    requires Inv(c, [])
    ensures Windowed(d)
  {
    assert Keyed(c.pending);
    FlattenKeyed(c.pending);
    ParkAllKeepsRing(Drain(Blank(c), Ring(c)), Flatten(c.pending));
    ParkAll(Drain(Blank(c), Ring(c)), Flatten(c.pending))
  }

  lemma ParkFits(c: Core, w: WireSpan)
    requires w.parent.Some? && PoolSize(c.pending) + 1 <= c.cap
    ensures Park(c, w) == c.(pending := Enqueue(c.pending, w.parent.value, w))
    ensures PoolSize(Park(c, w).pending) == PoolSize(c.pending) + 1
  {
    var m := Enqueue(c.pending, w.parent.value, w);
    EnqueueSpans(c.pending, w.parent.value, w);
    assert Trim(m, c.cap) == m && PoolSpans(m) - PoolSpans(m) == multiset{};
  }

  /** One waiting list goes back whole while the pool has room. */
  lemma {:induction false} ParkList(c: Core, k: nat, ws: seq<WireSpan>, rest: seq<WireSpan>)
    requires HaveParents(ws + rest) && HaveParents(rest) && ws != []
    requires forall w :: w in ws ==> w.parent == Some(k)
    requires PoolSize(c.pending) + |ws| <= c.cap
    ensures ParkAll(c, ws + rest) == ParkAll(c.(pending := c.pending[k := Waiters(c.pending, k) + ws]), rest)
    decreases |ws|
  {
    hide Park, PoolSize;
    var w, more := ws[0], ws[1..];
    assert (ws + rest)[0] == w && (ws + rest)[1..] == more + rest && w in ws;
    ParkFits(c, w);
    var m := Enqueue(c.pending, k, w);
    var done := Waiters(c.pending, k);
    if more == [] {
      assert ws == [w] && more + rest == rest;
    } else {
      assert HaveParents(more + rest) by {
        forall x | x in more + rest ensures x in ws + rest {}
      }
      ParkList(c.(pending := m), k, more, rest);
      assert done + [w] + more == done + ws;
      assert m[k := done + ws] == c.pending[k := done + ws];
    }
  }

  /** Moving one entry between maps with disjoint keys. */
  lemma MoveFirst<V>(m: map<nat, V>, p: map<nat, V>, k: nat)
    requires k in m && p.Keys !! m.Keys
    ensures p[k := m[k]] + (m - {k}) == p + m && p - {k} == p
  {
    assert (p[k := m[k]] + (m - {k})).Keys == (p + m).Keys;
  }

  lemma MoveKeys<V>(m: map<nat, V>, p: map<nat, V>, k: nat)
    requires k in m && p.Keys !! m.Keys
    ensures p[k := m[k]].Keys !! (m - {k}).Keys && |m - {k}| < |m|
  {
    assert (m - {k}).Keys == m.Keys - {k} && |m - {k}| == |(m - {k}).Keys|;
  }

  lemma MoveSizes(m: Pool, p: Pool, k: nat)
    requires k in m && p - {k} == p
    ensures PoolSize(p[k := m[k]]) + PoolSize(m - {k}) == PoolSize(p) + PoolSize(m)
    ensures |m[k]| <= PoolSize(m)
  {
    PoolWith(p, k, m[k]);
    PoolWithout(m, k);
  }

  lemma {:induction false} ParkBack(c: Core, m: Pool)
    requires Keyed(m) && c.pending.Keys !! m.Keys && PoolSize(c.pending) + PoolSize(m) <= c.cap
    ensures HaveParents(Flatten(m))
    ensures ParkAll(c, Flatten(m)) == c.(pending := c.pending + m)
    decreases |m|
  {
    hide PoolSize, Park;
    FlattenKeyed(m);
    if m == map[] {
      assert c.pending + m == c.pending;
    } else {
      var k := Least(m.Keys);
      var rest := m - {k};
      assert WaitersFor(k, m[k]);
      MoveFirst(m, c.pending, k);
      MoveKeys(m, c.pending, k);
      MoveSizes(m, c.pending, k);
      assert Waiters(c.pending, k) + m[k] == m[k];
      FlattenKeyed(rest);
      ParkList(c, k, m[k], Flatten(rest));
      ParkBack(c.(pending := c.pending[k := m[k]]), rest);
    }
  }

  /** The restored log is the survivors of the saved ring; it is the saved ring exactly when no entry
      has an evicted ancestor, and then the pool comes back too. */
  lemma RoundTrip(c: Core)
    requires Inv(c, [])
    ensures Restored(c).log == Survivors(Ring(c)) && Restored(c).start == 0
    ensures Restored(c).log == Ring(c) <==> Complete(Ring(c))
    ensures Complete(Ring(c)) ==> Restored(c) == Core(c.budget, c.cap, Ring(c), 0, c.pending, multiset{})
  {
    hide Inv, PoolSize, PoolSpans, Keyed, Survivors, Complete, ParkAll, Flatten, Drain, HaveParents;
    RingOrdered(c);
    SavedFacts(c);
    Replay(c, Ring(c));
    CompleteIffAllSurvive(Ring(c));
    FlattenKeyed(c.pending);
    var d := Drain(Blank(c), Ring(c));
    ParkAllKeepsRing(d, Flatten(c.pending));
    if Complete(Ring(c)) {
      NoPool();
      ParkBack(d, c.pending);
      assert d.pending + c.pending == c.pending;
    }
  }

  /** A survivor's key reads the same off the survivors alone as off the whole log. */
  lemma SurvivorKeepsKey(c: Core, keys: set<string>, i: nat)
    requires Inv(c, []) && i < |Survivors(Ring(c))|
    ensures var kept := Survivors(Ring(c)); var id := kept[i].id;
            id in KeyMap(kept, keys) && id in KeyMap(c.log, keys) && KeyMap(kept, keys)[id] == KeyMap(c.log, keys)[id]
  {
    RegroupKeeps(c);
    LogHasDistinctIds(c);
    LogHasDistinctIds(Regroup(c));
    var kept := Survivors(Ring(c));
    InvParentsFirst(c);
    InvParentsFirst(Regroup(c));
    hide Inv, ParentsFirst, DistinctIds, Survivors;
    LoggedIsRooted(kept, i);
    var path :| Path(kept, path) && path[0] == kept[i];
    SurvivorsSubset(Ring(c));
    forall s | s in kept ensures s in c.log {
      assert s in multiset(kept);
      assert s in Ring(c);
    }
    PathWidens(kept, c.log, path);
    InheritanceIsTheChain(kept, path, keys);
    InheritanceIsTheChain(c.log, path, keys);
  }

  lemma InvParentsFirst(c: Core)
    requires Inv(c, [])
    ensures ParentsFirst(c.log)
  {
  }

  /** With every chain still in the ring, replaying it gives back every entry: bucket key and self
      time included. */
  lemma EntriesComeBack(c: Core, keys: set<string>)
    requires Inv(c, []) && Complete(Ring(c))
    ensures IdSet(Ring(c)) <= KeyMap(Ring(c), keys).Keys && IdSet(Ring(c)) <= KeyMap(c.log, keys).Keys
    ensures Entries(Ring(c), KeyMap(Ring(c), keys)) == Entries(Ring(c), KeyMap(c.log, keys))
  {
    RingOrdered(c);
    CompleteIffAllSurvive(Ring(c));
    InvWindow(c, []);
    KeyMapDomain(Ring(c), keys);
    KeyMapDomain(c.log, keys);
    forall s | s in Ring(c) ensures s in c.log {}
    hide Inv, KeyMap, Survivors, Complete, ChildSum;
    var r, a, b := Ring(c), KeyMap(Ring(c), keys), KeyMap(c.log, keys);
    forall i | 0 <= i < |r| ensures Entries(r, a)[i] == Entries(r, b)[i] {
      SurvivorKeepsKey(c, keys, i);
      EntriesAt(r, a, i);
      EntriesAt(r, b, i);
    }
  }

  /** The restored rows are the saved rows exactly when no entry has an evicted ancestor. */
  lemma RowsComeBackIff(c: Core, keys: set<string>)
    requires Inv(c, [])
    ensures AggregatorRows(Restored(c), keys) == AggregatorRows(c, keys) <==> Complete(Ring(c))
  {
    RoundTrip(c);
    InvWindow(c, []);
    var d := Restored(c);
    assert Ring(d) == Survivors(Ring(c));
    if Complete(Ring(c)) {
      EntriesComeBack(c, keys);
    }
    hide Inv, Restored, Survivors, Complete, Rows, KeyMap;
    KeyMapDomain(c.log, keys);
    KeyMapDomain(d.log, keys);
    forall s | s in Ring(c) ensures s in c.log {}
    if AggregatorRows(d, keys) == AggregatorRows(c, keys) {
      RowsCountEntries(Entries(Ring(d), KeyMap(d.log, keys)), Entries(Ring(c), KeyMap(c.log, keys)));
      SurvivorsAreFewer(Ring(c));
    }
  }

  lemma SavedFacts(c: Core)
    requires Inv(c, [])
    ensures Windowed(c) && Keyed(c.pending) && PoolSize(c.pending) <= c.cap
  {
  }

  lemma NoPool()
    ensures PoolSize(map[]) == 0
  {
  }

  /** The ring followed by the pool, in flight towards an empty aggregator. */
  lemma BlankAdmitsBoth(c: Core)
    requires Inv(c, [])
    ensures Inv(Blank(c), Ring(c) + Flatten(c.pending))
  {
    assert Windowed(c) && Keyed(c.pending) && UniqueIds(Everything(c) + multiset([])) && AllClosed(c.log);
    hide Inv, UniqueIds;
    FlattenKeyed(c.pending);
    var all := Ring(c) + Flatten(c.pending);
    assert c.log == c.log[..c.start] + Ring(c);
    assert multiset(all) == multiset(Ring(c)) + PoolSpans(c.pending);
    assert multiset(c.log) == multiset(c.log[..c.start]) + multiset(Ring(c));
    UniqueSub(multiset(all), Everything(c) + multiset([]));
    forall s | s in all ensures s.closedAt.Some? {
      if s in Ring(c) { assert s in c.log; }
    }
    BlankAdmits(c, all);
  }

  /** A snapshot taken from a reachable state can be read back, and reading it restores that state. */
  lemma SavedIsReadable(c: Core)
    requires Inv(c, []) && c.cap == Fresh(c.budget).cap
    ensures Keyed(c.pending) && Unused(Fresh(c.budget), Closed(Ring(c)) + Flatten(c.pending))
    ensures var d := Drain(Fresh(c.budget), Closed(Ring(c)));
            && d.start <= |d.log| && c.pending.Keys !! IdSet(Ring(d)) && HaveParents(Flatten(c.pending))
            && Restored(c) == ParkAll(d, Flatten(c.pending))
  {
    SavedFacts(c);
    InvWindow(c, []);
    BlankAdmitsBoth(c);
    RingIsClosed(c);
    ClosedKeepsAll(Ring(c));
    FlattenKeyed(c.pending);
    assert Blank(c) == Fresh(c.budget);
    assert Unused(Blank(c), Ring(c) + Flatten(c.pending));
    PoolKeysStayOut(c);
  }

  lemma RingIsClosed(c: Core)
    requires Inv(c, [])
    ensures AllClosed(Ring(c))
  {
    forall s | s in Ring(c) ensures s.closedAt.Some? { assert s in c.log; }
  }

  lemma PoolKeysStayOut(c: Core)
    requires Inv(c, [])
    ensures Windowed(c) && c.pending.Keys !! IdSet(Ring(Drain(Blank(c), Ring(c))))
  {
    assert Windowed(c) && PoolKeyed(c);
    hide Inv;
    RingOrdered(c);
    Replay(c, Ring(c));
    SurvivorsSubset(Ring(c));
    var kept := Survivors(Ring(c));
    forall s | s in kept ensures s in Ring(c) { assert s in multiset(kept); }
    assert IdSet(kept) <= IdSet(Ring(c));
  }

  /** The pool is listed by missing parent, lowest first. */
  lemma {:induction false} FlattenIsSorted(m: Pool, i: nat, j: nat)
    requires Keyed(m) && i < j < |Flatten(m)|
    ensures Flatten(m)[i].parent.Some? && Flatten(m)[j].parent.Some?
    ensures Flatten(m)[i].parent.value <= Flatten(m)[j].parent.value
    decreases |m|
  {
    FlattenKeyed(m);
    var k := Least(m.Keys);
    var n := |m[k]|;
    assert WaitersFor(k, m[k]);
    assert Flatten(m)[i] in Flatten(m) && Flatten(m)[j] in Flatten(m);
    if i >= n {
      FlattenIsSorted(m - {k}, i - n, j - n);
    }
  }
}
