/** Arrivals at which the chart's two limits are reached. */
module ChartWitnesses {
  import opened Spans
  import opened Splits
  import opened Ledger
  import opened Forest
  import opened Survival
  import opened Chains
  import opened GraphStore
  import opened GraphView
  import Witnesses

  /** The bucket key of a root, and of a root's child, read off the chain. */
  lemma ShallowKeys(log: seq<WireSpan>, r: WireSpan, k: WireSpan, keys: set<string>)
    requires ParentsFirst(log) && DistinctIds(log) && r in log && k in log
    requires r.parent.None? && r.fields == [] && k.parent == Some(r.id)
    ensures r.id in KeyMap(log, keys) && KeyMap(log, keys)[r.id].stack == [r.name]
    ensures k.id in KeyMap(log, keys) && KeyMap(log, keys)[k.id].stack == [r.name, k.name]
    ensures WalkedSplits(ById(log), k.id, keys) == Canon(FieldMap(k.fields, keys))
  {
    hide Path, ParentsFirst, DistinctIds, KeyMap, ById, FieldMap, Canon, Overlay, NamesFromRoot, WalkedSplits;
    Witnesses.PathOne(log, r);
    Witnesses.PathCons(log, k, [r]);
    assert [k] + [r] == [k, r];
    InheritanceIsTheChain(log, [r], keys);
    InheritanceIsTheChain(log, [k, r], keys);
    NamesOfTwo(k, r);
    OverlayOfTwo(k, r, keys);
    assert log[0..] == log;
    RingWalkIsInheritance(log, 0, [k, r], keys);
  }

  lemma OverlayOfTwo(k: WireSpan, r: WireSpan, keys: set<string>)
    requires r.fields == []
    ensures Overlay([k, r], keys) == FieldMap(k.fields, keys)
  {
    assert [k, r][1..] == [r] && [r][1..] == [];
    assert FieldMap(r.fields, keys) == map[];
    assert Overlay([r], keys) == map[] + map[];
  }

  lemma NamesOfTwo(k: WireSpan, r: WireSpan)
    ensures NamesFromRoot([r]) == [r.name] && NamesFromRoot([k, r]) == [r.name, k.name]
  {
    assert [k, r][1..] == [r] && [r][1..] == [];
  }

  lemma FieldsOfOne(v: string)
    ensures FieldMap([("k", v)], {"k"}) == map["k" := v]
  {
    assert [("k", v)][1..] == [];
  }

  // ── Late release ──

  const R1 := WireSpan(1, None, "r", [], [], 0, Some(111))
  const K2 := WireSpan(2, Some(1), "x", [("k", "a")], [], 90, Some(100))
  const K3 := WireSpan(3, Some(1), "x", [("k", "b")], [], 95, Some(110))
  const K4 := WireSpan(4, Some(5), "x", [("k", "b")], [], 96, Some(104))
  const R5 := WireSpan(5, None, "r", [], [], 0, Some(112))

  /** Three children wait ... */
  lemma ThreeWait(rest: seq<WireSpan>)
    ensures Drain(Fresh(16), [K2] + ([K4] + ([K3] + rest)))
            == Drain(Core(16, 4, [], 0, map[1 := [K2, K3], 5 := [K4]], multiset{}), rest)
  {
    hide PoolSize, PoolSpans, Drain, IdSet;
    var p1 := Core(16, 4, [], 0, map[1 := [K2]], multiset{});
    var p2 := Core(16, 4, [], 0, map[1 := [K2], 5 := [K4]], multiset{});
    NoneIn();
    DrainParks(Fresh(16), K2, [K4] + ([K3] + rest));
    assert [] + [K2] == [K2] && Fresh(16).(pending := Enqueue(map[], 1, K2)) == p1;
    DrainParks(p1, K4, [K3] + rest);
    assert [] + [K4] == [K4] && p1.(pending := Enqueue(p1.pending, 5, K4)) == p2;
    DrainParks(p2, K3, rest);
    assert [K2] + [K3] == [K2, K3];
    assert p2.(pending := Enqueue(p2.pending, 1, K3)) == Core(16, 4, [], 0, map[1 := [K2, K3], 5 := [K4]], multiset{});
  }

  /** ... and the first root brings in two of them. */
  lemma BeforeLate()
    ensures Drain(Fresh(16), [K2, K4, K3, R1]) == Core(16, 4, [R1, K2, K3], 0, map[5 := [K4]], multiset{})
  {
    hide PoolSize, PoolSpans, Drain, IdSet, Enqueue;
    assert [K2] + ([K4] + ([K3] + [R1])) == [K2, K4, K3, R1];
    ThreeWait([R1]);
    var p3 := Core(16, 4, [], 0, map[1 := [K2, K3], 5 := [K4]], multiset{});
    assert [R1] + [] == [R1];
    DrainCommits(p3, R1, []);
    assert Waiters(p3.pending, 1) + [] == [K2] + [K3];
    var c1 := Core(16, 4, [R1], 0, map[5 := [K4]], multiset{});
    assert Commit(p3, R1) == c1;
    Witnesses.IdsOf(Ring(c1), R1);
    DrainPlaces(c1, K2, [K3], c1.(log := [R1, K2]));
    Witnesses.IdsOf([R1, K2], R1);
    assert [K3] + [] == [K3];
    DrainPlaces(c1.(log := [R1, K2]), K3, [], c1.(log := [R1, K2, K3]));
    DrainNothing(c1.(log := [R1, K2, K3]));
  }

  lemma NoneIn()
    ensures IdSet([]) == {} && PoolSize(map[]) == 0
  {
  }

  /** The second root brings in the third child. */
  lemma AfterLate(c: Core)
    requires c == Core(16, 4, [R1, K2, K3], 0, map[5 := [K4]], multiset{})
    ensures Drain(c, [R5]) == Core(16, 4, [R1, K2, K3, R5, K4], 0, map[], multiset{})
  {
    hide PoolSize, PoolSpans, Drain, IdSet;
    assert [R5] + [] == [R5] && [K4] + [] == [K4];
    DrainCommits(c, R5, []);
    var d := Core(16, 4, [R1, K2, K3, R5], 0, map[], multiset{});
    assert Commit(c, R5) == d && Waiters(c.pending, 5) + [] == [K4];
    Witnesses.IdsOf(Ring(d), R5);
    DrainPlaces(d, K4, [], d.(log := [R1, K2, K3, R5, K4]));
    DrainNothing(d.(log := [R1, K2, K3, R5, K4]));
  }

  const LENS := Lens(["r", "x"], Count, {"k"})

  /** A charted child: one sample under its own field value. */
  lemma ChildFeed(log: seq<WireSpan>, r: WireSpan, k: WireSpan, v: string)
    requires ParentsFirst(log) && DistinctIds(log) && r in log && k in log
    requires r.parent.None? && r.fields == [] && r.name == "r"
    requires k.parent == Some(r.id) && k.name == "x" && k.fields == [("k", v)] && k.closedAt.Some?
    ensures Feed(LENS, log, KeyMap(log, {}), [r]) == []
    ensures Feed(LENS, log, KeyMap(log, {}), [k]) == [Sample(Canon(map["k" := v]), k.closedAt.value, 1)]
  {
    hide KeyMap, ParentsFirst, DistinctIds, ById, WalkedSplits, Canon, FieldMap, Feed;
    ShallowKeys(log, r, k, {});
    ShallowKeys(log, r, k, {"k"});
    FieldsOfOne(v);
    FeedOne(LENS, log, KeyMap(log, {}), r);
    FeedOne(LENS, log, KeyMap(log, {}), k);
  }

  lemma LogsAreSound(log: seq<WireSpan>)
    requires log == [R1, K2, K3] || log == [R1, K2, K3, R5, K4]
    ensures ParentsFirst(log) && DistinctIds(log)
  {
    forall i | 0 <= i < |log| && log[i].parent.Some? ensures log[i].parent.value in IdSet(log[..i]) {
      if i == 4 {
        assert log[..4][3] == R5;
        Witnesses.IdsOf(log[..4], R5);
      } else {
        assert log[..i][0] == R1;
        Witnesses.IdsOf(log[..i], R1);
      }
    }
  }

  /** What the chart shows before and what the second root brings. */
  lemma LateFeeds()
    ensures Feed(LENS, [R1, K2, K3], KeyMap([R1, K2, K3], {}), [R1, K2, K3])
            == [Sample(Canon(map["k" := "a"]), 100, 1), Sample(Canon(map["k" := "b"]), 110, 1)]
    ensures var log := [R1, K2, K3, R5, K4];
            Feed(LENS, log, KeyMap(log, {}), [R5, K4]) == [Sample(Canon(map["k" := "b"]), 104, 1)]
  {
    hide KeyMap, ParentsFirst, DistinctIds, Canon, Feed;
    var c, d := [R1, K2, K3], [R1, K2, K3, R5, K4];
    LogsAreSound(c);
    LogsAreSound(d);
    ChildFeed(c, R1, K2, "a");
    ChildFeed(c, R1, K3, "b");
    ChildFeed(d, R5, K4, "b");
    var kc, kd := KeyMap(c, {}), KeyMap(d, {});
    assert [R1] + [K2] + [K3] == c && [R5] + [K4] == [R5, K4];
    FeedConcat(LENS, c, kc, [R1], [K2]);
    FeedConcat(LENS, c, kc, [R1] + [K2], [K3]);
    FeedConcat(LENS, d, kd, [R5], [K4]);
  }

  ghost predicate InClosingOrder(spans: seq<WireSpan>) {
    AllClosed(spans) && forall i, j :: 0 <= i < j < |spans| ==> spans[i].closedAt.value <= spans[j].closedAt.value
  }

  lemma FiveInOrder()
    ensures InClosingOrder([K2, K4, K3, R1, R5])
  {
  }

  lemma FiveDistinct()
    ensures DistinctIds([K2, K4, K3, R1, R5])
  {
  }

  lemma LateStates(c: Core, d: Core)
    requires c == Drain(Fresh(16), [K2, K4, K3, R1]) && d == Drain(c, [R5])
    ensures c.log == [R1, K2, K3] && d.log == [R1, K2, K3, R5, K4] && c.start == d.start == 0
    ensures Ring(c) == c.log && Ring(d) == d.log && d.log[3..] == [R5, K4]
  {
    hide Drain;
    BeforeLate();
    AfterLate(c);
  }

  lemma LateSamples(a: Pairs, b: Pairs)
    requires a == Canon(map["k" := "a"]) && b == Canon(map["k" := "b"])
    ensures AllRecordable([], [Sample(a, 100, 1), Sample(b, 110, 1)], 2)
    ensures !AllRecordable([Sample(a, 100, 1), Sample(b, 110, 1)], [Sample(b, 104, 1)], 2)
  {
    hide Canon, Recordable, AllRecordable;
    assert "a"[0] != "b"[0] && AsMap(a)["k"] == "a" && AsMap(b)["k"] == "b";
    LateSampleUnderflows(a, b);
    AllRecordableOne([Sample(a, 100, 1), Sample(b, 110, 1)], Sample(b, 104, 1), 2);
    TimeOrderIsAllRecordable([], [Sample(a, 100, 1), Sample(b, 110, 1)], 2);
  }

  /** Five spans arriving in the order they closed.  The first root sets the chart's origin and starts
      the second series at 110; the second root releases a span of that series closed at 104, and
      recording it fails. */
  lemma ClosingOrderIsNotEnough()
    ensures InClosingOrder([K2, K4, K3, R1, R5]) && DistinctIds([K2, K4, K3, R1, R5])
    ensures var c := Drain(Fresh(16), [K2, K4, K3, R1]); var d := Drain(c, [R5]);
            && c.log <= d.log && c.start == d.start == 0
            && AllRecordable([], RingFeed(LENS, c, {}), 2)
            && !AllRecordable(RingFeed(LENS, c, {}), NewFeed(LENS, c, d, {}), 2)
  {
    hide Drain, KeyMap, Feed, Canon, AllRecordable, InClosingOrder, DistinctIds;
    FiveInOrder();
    FiveDistinct();
    var c := Drain(Fresh(16), [K2, K4, K3, R1]);
    var d := Drain(c, [R5]);
    LateStates(c, d);
    LateFeeds();
    LateSamples(Canon(map["k" := "a"]), Canon(map["k" := "b"]));
  }

  // ── Self time ──

  /** A root charted by self time, then its child: a rebuild no longer shows what was recorded. */
  lemma SelfTimeDrifts()
    ensures var lens := Lens(["r"], SelfTime, {});
            var c := Drain(Fresh(2), [Witnesses.ROOT]); var d := Drain(c, [Witnesses.CHILD]);
            && c.log <= d.log && c.start == d.start <= |c.log| && d.start <= |d.log|
            && RingFeed(lens, d, {}) != RingFeed(lens, c, {}) + NewFeed(lens, c, d, {})
  {
    hide Drain, Inv, KeyMap, Feed, UniqueIds, ReadingsStand, Grown;
    var root, child := Witnesses.ROOT, Witnesses.CHILD;
    var lens := Lens(["r"], SelfTime, {});
    Witnesses.RootAndChild();
    var c := Drain(Fresh(2), [root]);
    var d := Drain(c, [child]);
    ReachableIsGrown(c, d);
    RehydrateExtendsIff(lens, c, d, {});
    SelfTimesStandIff(lens, c, d, {});
    assert Ring(c) == [root] && d.log[1..] == [child] && root in Ring(c);
    RootOnStack();
    assert ChildSum([child], 1) == 4 by { assert [child][1..] == []; }
    assert ChildSum([root], 1) == 0 by { assert [root][1..] == []; }
  }

  lemma RootOnStack()
    ensures OnStack(Lens(["r"], SelfTime, {}), KeyMap([Witnesses.ROOT], {}), Witnesses.ROOT)
  {
    hide Resolve;
    assert [Witnesses.ROOT][..0] == [];
  }
}
