/** The chart locked on one bucket: fed span by span, it shows what re-walking the ring would. */
module GraphView {
  import opened Spans
  import opened Ledger
  import opened Forest
  import opened Survival
  import opened Chains
  import opened Reference
  import opened Bags
  import opened GraphStore
  import opened Aggregation

  datatype Metric = Total | SelfTime | Count

  /** What a locked chart takes from one ring entry. */
  datatype Lens = Lens(lockedStack: seq<string>, metric: Metric, splitKeys: set<string>)

  ghost function ValueOf(lens: Lens, ring: seq<WireSpan>, s: WireSpan): nat {
    match lens.metric
    case Total => Spans.Total(s)
    case SelfTime => SatSub(Spans.Total(s), ChildSum(ring, s.id))
    case Count => 1
  }

  ghost function SampleOf(lens: Lens, ring: seq<WireSpan>, s: WireSpan): Sample {
    Sample(WalkedSplits(ById(ring), s.id, lens.splitKeys),
           if s.closedAt.Some? then s.closedAt.value else 0,
           ValueOf(lens, ring, s))
  }

  ghost predicate OnStack(lens: Lens, keys: map<nat, BucketKey>, s: WireSpan) {
    s.id in keys && keys[s.id].stack == lens.lockedStack
  }

  /** The samples a walk over `spans` offers, read against `ring`. */
  ghost function Feed(lens: Lens, ring: seq<WireSpan>, keys: map<nat, BucketKey>, spans: seq<WireSpan>): seq<Sample> {
    if spans == [] then []
    else
      var s := spans[|spans| - 1];
      Feed(lens, ring, keys, spans[..|spans| - 1])
      + if OnStack(lens, keys, s) then [SampleOf(lens, ring, s)] else []
  }

  /** What rehydrating from the aggregator state `c` offers to the store. */
  ghost function RingFeed(lens: Lens, c: Core, aggKeys: set<string>): seq<Sample>
    requires c.start <= |c.log|
  {
    Feed(lens, Ring(c), KeyMap(c.log, aggKeys), Ring(c))
  }

  /** What the spans newly in the ring offer, read against the new ring. */
  ghost function NewFeed(lens: Lens, c: Core, d: Core, aggKeys: set<string>): seq<Sample>
    requires c.log <= d.log && d.start <= |d.log|
  {
    var from := if d.start > |c.log| then d.start else |c.log|;
    Feed(lens, Ring(d), KeyMap(d.log, aggKeys), d.log[from..])
  }

  lemma FeedConcat(lens: Lens, ring: seq<WireSpan>, keys: map<nat, BucketKey>, a: seq<WireSpan>, b: seq<WireSpan>)
    ensures Feed(lens, ring, keys, a + b) == Feed(lens, ring, keys, a) + Feed(lens, ring, keys, b)
    decreases |b|
  {
    if b == [] {
      assert a + b == a;
    } else {
      assert (a + b)[..|a + b| - 1] == a + b[..|b| - 1];
      FeedConcat(lens, ring, keys, a, b[..|b| - 1]);
    }
  }

  lemma FeedOne(lens: Lens, ring: seq<WireSpan>, keys: map<nat, BucketKey>, s: WireSpan)
    ensures Feed(lens, ring, keys, [s]) == if OnStack(lens, keys, s) then [SampleOf(lens, ring, s)] else []
  {
    assert [s][..0] == [];
  }

  // ── What is charted, spelt out ──

  /** A span is charted when the names along its whole chain, root first, are the locked stack. */
  lemma OnStackIs(lens: Lens, c: Core, keys: set<string>, path: seq<WireSpan>)
    requires Inv(c, []) && Path(c.log, path)
    ensures OnStack(lens, KeyMap(c.log, keys), path[0]) <==> NamesFromRoot(path) == lens.lockedStack
  {
    hide KeyMap, Path, Inv, ParentsFirst, DistinctIds;
    InvLog(c);
    LogHasDistinctIds(c);
    InheritanceIsTheChain(c.log, path, keys);
  }

  /** Its sample: its walked splits, its closing time, and one, its duration, or what its children
      leave of it. */
  lemma SampleIs(lens: Lens, ring: seq<WireSpan>, s: WireSpan)
    requires s.closedAt.Some?
    ensures var x := SampleOf(lens, ring, s);
            && x.key == WalkedSplits(ById(ring), s.id, lens.splitKeys) && x.t == s.closedAt.value
            && (lens.metric == Count ==> x.value == 1)
            && (lens.metric == Total ==> x.value == Spans.Total(s))
            && (lens.metric == SelfTime && ChildSum(ring, s.id) <= Spans.Total(s) ==>
                  x.value + ChildSum(ring, s.id) == Spans.Total(s))
            && (lens.metric == SelfTime && ChildSum(ring, s.id) >= Spans.Total(s) ==> x.value == 0)
  {
  }

  /** The samples of those of `spans` whose whole chain in `log` spells the locked stack, in order. */
  ghost function Charted(lens: Lens, log: seq<WireSpan>, ring: seq<WireSpan>, spans: seq<WireSpan>): seq<Sample> {
    if spans == [] then []
    else
      var s := spans[|spans| - 1];
      Charted(lens, log, ring, spans[..|spans| - 1])
      + if NamesFromRoot(FullChain(log, s)) == lens.lockedStack then [SampleOf(lens, ring, s)] else []
  }

  lemma ChartedIs(lens: Lens, log: seq<WireSpan>, ring: seq<WireSpan>, spans: seq<WireSpan>, s: WireSpan)
    ensures Charted(lens, log, ring, []) == []
    ensures Charted(lens, log, ring, spans + [s]) == Charted(lens, log, ring, spans)
            + if NamesFromRoot(FullChain(log, s)) == lens.lockedStack then [SampleOf(lens, ring, s)] else []
  {
    assert (spans + [s])[..|spans|] == spans;
  }

  /** What is offered is what is charted. */
  lemma {:induction false} FeedIsCharted(lens: Lens, c: Core, keys: set<string>, spans: seq<WireSpan>)
    requires Inv(c, []) && forall s :: s in spans ==> s in c.log
    ensures c.start <= |c.log|
    ensures Feed(lens, Ring(c), KeyMap(c.log, keys), spans) == Charted(lens, c.log, Ring(c), spans)
    decreases |spans|
  {
    hide Inv, KeyMap, Path, SampleOf, OnStack, FullChain;
    InvWindow(c, []);
    if spans == [] {
    } else {
      var front, s := spans[..|spans| - 1], spans[|spans| - 1];
      assert spans == front + [s] && s in spans;
      FeedIsCharted(lens, c, keys, front);
      LoggedIsWhole(c, s);
      OnStackIs(lens, c, keys, FullChain(c.log, s));
    }
  }

  lemma LoggedIsWhole(c: Core, s: WireSpan)
    requires Inv(c, []) && s in c.log
    ensures Path(c.log, FullChain(c.log, s)) && FullChain(c.log, s)[0] == s
  {
    InvLog(c);
    hide Inv, Path;
    var i :| 0 <= i < |c.log| && c.log[i] == s;
    LoggedIsRooted(c.log, i);
  }

  /** What a rebuild and an arrival offer. */
  lemma FeedsAreCharted(lens: Lens, c: Core, d: Core, keys: set<string>)
    requires Inv(d, []) && c.log <= d.log
    ensures d.start <= |d.log| && RingFeed(lens, d, keys) == Charted(lens, d.log, Ring(d), Ring(d))
    ensures var from := if d.start > |c.log| then d.start else |c.log|;
            NewFeed(lens, c, d, keys) == Charted(lens, d.log, Ring(d), d.log[from..])
  {
    hide Inv, KeyMap, Feed, Charted;
    InvWindow(d, []);
    forall s | s in Ring(d) ensures s in d.log {}
    FeedIsCharted(lens, d, keys, Ring(d));
    var from := if d.start > |c.log| then d.start else |c.log|;
    forall s | s in d.log[from..] ensures s in d.log {}
    FeedIsCharted(lens, d, keys, d.log[from..]);
  }

  // ── A longer ring reads its old spans as before ──

  lemma FrontDistinct(a: seq<WireSpan>, b: seq<WireSpan>)
    requires DistinctIds(a + b)
    ensures DistinctIds(a)
  {
    forall i, j | 0 <= i < j < |a| ensures a[i].id != a[j].id {
      assert (a + b)[i].id != (a + b)[j].id;
    }
  }

  /** A chain that leaves the ring leaves it for good: parents never come after children. */
  lemma {:induction false} ClimbIsStable(before: seq<WireSpan>, more: seq<WireSpan>, s: WireSpan, got: seq<WireSpan>)
    requires Ordered(before + more) && DistinctIds(before + more) && s in before
    ensures Climb(ById(before + more), s.parent, got) == Climb(ById(before), s.parent, got)
    decreases WALK_LIMIT - |got|
  {
    var all := before + more;
    hide DistinctIds, Ordered, ById;
    FrontDistinct(before, more);
    ByIdFinds(all);
    ByIdFinds(before);
    if s.parent.Some? && |got| < WALK_LIMIT && s.parent.value in ById(all) {
      var p :| p in all && p.id == s.parent.value;
      ParentIsOld(before, more, s, p);
      ClimbIsStable(before, more, p, got + [p]);
    } else {
      forall t | t in before ensures t in all {}
    }
  }

  lemma ParentIsOld(before: seq<WireSpan>, more: seq<WireSpan>, s: WireSpan, p: WireSpan)
    requires Ordered(before + more) && s in before && p in before + more && s.parent == Some(p.id)
    ensures p in before
  {
    var all := before + more;
    var i :| 0 <= i < |before| && before[i] == s;
    var j :| 0 <= j < |all| && all[j] == p;
    assert all[i] == s;
  }

  /** The condition under which a metric's old readings stay what they were. */
  ghost predicate ReadingsStand(lens: Lens, c: Core, d: Core, aggKeys: set<string>)
    requires c.start <= |c.log| && d.start <= |d.log|
  {
    forall s :: s in Ring(c) && OnStack(lens, KeyMap(c.log, aggKeys), s) ==>
      ValueOf(lens, Ring(c), s) == ValueOf(lens, Ring(d), s)
  }

  lemma {:induction false} KeyMapGrows(log: seq<WireSpan>, more: seq<WireSpan>, keys: set<string>, s: WireSpan)
    requires ParentsFirst(log + more) && DistinctIds(log + more) && s in log
    ensures s.id in KeyMap(log, keys) && s.id in KeyMap(log + more, keys)
    ensures KeyMap(log + more, keys)[s.id] == KeyMap(log, keys)[s.id]
    decreases |more|
  {
    hide Extend, ParentsFirst, DistinctIds;
    KeyMapDomain(log, keys);
    if more == [] {
      assert log + more == log;
    } else {
      var n := |more| - 1;
      var all := log + more;
      assert all[..|all| - 1] == log + more[..n];
      LastIsNew(all);
      KeyMapGrows(log, more[..n], keys, s);
      assert s in log + more[..n];
    }
  }

  /** `d` is `c` with spans appended and nothing evicted. */
  ghost predicate Grown(c: Core, d: Core) {
    && c.start == d.start <= |c.log| && c.log <= d.log
    && ParentsFirst(d.log) && DistinctIds(d.log)
    && Ring(d) == Ring(c) + d.log[|c.log|..] && Ordered(Ring(d)) && DistinctIds(Ring(d))
  }

  lemma InvLog(c: Core)
    requires Inv(c, [])
    ensures c.start <= |c.log| && ParentsFirst(c.log)
  {
  }

  lemma ReachableIsGrown(c: Core, d: Core)
    requires Inv(c, []) && Inv(d, []) && c.log <= d.log && d.start == c.start
    ensures Grown(c, d)
  {
    hide Inv, ParentsFirst, Ordered;
    InvLog(c);
    InvLog(d);
    LogHasDistinctIds(d);
    RingOrdered(d);
    assert d.log == c.log + d.log[|c.log|..];
    forall i, j | 0 <= i < j < |Ring(d)| ensures Ring(d)[i].id != Ring(d)[j].id {
      assert d.log[d.start + i].id != d.log[d.start + j].id;
    }
  }

  lemma {:induction false} FeedsAlign(lens: Lens, c: Core, d: Core, aggKeys: set<string>, spans: seq<WireSpan>)
    requires Grown(c, d) && forall s :: s in spans ==> s in Ring(c)
    ensures var fc := Feed(lens, Ring(c), KeyMap(c.log, aggKeys), spans);
            var fd := Feed(lens, Ring(d), KeyMap(d.log, aggKeys), spans);
            && |fc| == |fd|
            && (fc == fd <==> forall s :: s in spans && OnStack(lens, KeyMap(c.log, aggKeys), s) ==>
                                ValueOf(lens, Ring(c), s) == ValueOf(lens, Ring(d), s))
    decreases |spans|
  {
    hide KeyMap, Ring, ValueOf, SampleOf, OnStack, ParentsFirst, Ordered, DistinctIds;
    if spans == [] {
    } else {
      var n := |spans| - 1;
      var front, s := spans[..n], spans[n];
      assert spans == front + [s] && s in spans;
      FeedsAlign(lens, c, d, aggKeys, front);
      SampleIsStable(lens, c, d, aggKeys, s);
      var fc := Feed(lens, Ring(c), KeyMap(c.log, aggKeys), front);
      var fd := Feed(lens, Ring(d), KeyMap(d.log, aggKeys), front);
      if OnStack(lens, KeyMap(c.log, aggKeys), s) {
        SameEnds(fc, SampleOf(lens, Ring(c), s), fd, SampleOf(lens, Ring(d), s));
      } else {
        assert fc + [] == fc && fd + [] == fd;
      }
    }
  }

  lemma SameEnds<T>(a: seq<T>, x: T, b: seq<T>, y: T)
    requires |a| == |b|
    ensures a + [x] == b + [y] <==> a == b && x == y
  {
    assert (a + [x])[..|a|] == a && (b + [y])[..|b|] == b;
    assert (a + [x])[|a|] == x && (b + [y])[|b|] == y;
  }

  /** A sample re-read against the longer ring can differ in its value only. */
  lemma SampleIsStable(lens: Lens, c: Core, d: Core, aggKeys: set<string>, s: WireSpan)
    requires Grown(c, d) && s in Ring(c)
    ensures OnStack(lens, KeyMap(c.log, aggKeys), s) <==> OnStack(lens, KeyMap(d.log, aggKeys), s)
    ensures SampleOf(lens, Ring(c), s) == SampleOf(lens, Ring(d), s)
            <==> ValueOf(lens, Ring(c), s) == ValueOf(lens, Ring(d), s)
  {
    hide KeyMap, ValueOf, ParentsFirst, Ordered, DistinctIds;
    var added := d.log[|c.log|..];
    assert d.log == c.log + added && s in c.log;
    KeyMapGrows(c.log, added, aggKeys, s);
    RingWalkStable(Ring(c), added, s, lens.splitKeys);
  }

  lemma RingWalkStable(ring: seq<WireSpan>, added: seq<WireSpan>, s: WireSpan, keys: set<string>)
    requires Ordered(ring + added) && DistinctIds(ring + added) && s in ring
    ensures WalkedSplits(ById(ring + added), s.id, keys) == WalkedSplits(ById(ring), s.id, keys)
  {
    var all := ring + added;
    FrontDistinct(ring, added);
    ByIdFinds(all);
    ByIdFinds(ring);
    assert s in all;
    ClimbIsStable(ring, added, s, [s]);
  }

  /** While nothing was evicted since, rehydrating would offer what was already offered followed by
      the new spans, exactly when the old readings still stand. */
  lemma RehydrateExtendsIff(lens: Lens, c: Core, d: Core, aggKeys: set<string>)
    requires Grown(c, d)
    ensures RingFeed(lens, d, aggKeys) == RingFeed(lens, c, aggKeys) + NewFeed(lens, c, d, aggKeys)
            <==> ReadingsStand(lens, c, d, aggKeys)
    ensures lens.metric != SelfTime ==> ReadingsStand(lens, c, d, aggKeys)
  {
    hide KeyMap, OnStack, ParentsFirst, Ordered, DistinctIds, SampleOf, ValueOf;
    var before, keys := Ring(c), KeyMap(d.log, aggKeys);
    FeedsAlign(lens, c, d, aggKeys, before);
    FeedConcat(lens, Ring(d), keys, before, d.log[|c.log|..]);
    SamePrefixes(Feed(lens, Ring(d), keys, before), RingFeed(lens, c, aggKeys), NewFeed(lens, c, d, aggKeys));
    DurationsStand(lens, c, d, aggKeys);
  }

  lemma DurationsStand(lens: Lens, c: Core, d: Core, aggKeys: set<string>)
    requires c.start <= |c.log| && d.start <= |d.log|
    ensures lens.metric != SelfTime ==> ReadingsStand(lens, c, d, aggKeys)
  {
  }

  /** Self times stand exactly when every charted span gets no more child time or had none left. */
  lemma SelfTimesStandIff(lens: Lens, c: Core, d: Core, aggKeys: set<string>)
    requires Grown(c, d) && lens.metric == SelfTime
    ensures ReadingsStand(lens, c, d, aggKeys) <==>
            forall s :: s in Ring(c) && OnStack(lens, KeyMap(c.log, aggKeys), s) ==>
              ChildSum(d.log[|c.log|..], s.id) == 0 || Spans.Total(s) <= ChildSum(Ring(c), s.id)
  {
    hide KeyMap, OnStack, ParentsFirst, Ordered, DistinctIds, ChildSum;
    var before, added := Ring(c), d.log[|c.log|..];
    forall s | s in before
      ensures ValueOf(lens, before, s) == ValueOf(lens, Ring(d), s)
              <==> ChildSum(added, s.id) == 0 || Spans.Total(s) <= ChildSum(before, s.id)
    {
      ChildSumConcat(before, added, s.id);
    }
  }

  lemma SamePrefixes<T>(a: seq<T>, b: seq<T>, tail: seq<T>)
    requires |a| == |b|
    ensures a + tail == b + tail <==> a == b
  {
    assert (a + tail)[..|a|] == a && (b + tail)[..|b|] == b;
  }

  // ── The view ──

  class GraphState {
    var lens: Lens
    var windowNs: nat
    const store: GraphSeriesStore

    constructor (lockedStack: seq<string>, window: nat)
      requires window >= 1
      ensures lens == Lens(lockedStack, Metric.Total, {}) && windowNs == window
      ensures fresh(store) && store.Valid() && store.fed == [] && store.window == window
    {
      lens, windowNs := Lens(lockedStack, Metric.Total, {}), window;
      store := new GraphSeriesStore(window);
    }

    /** Records one ring span; the caller has matched its stack. */
    method RecordSpan(agg: Aggregator, s: WireSpan) returns (ok: bool)
      requires agg.Valid() && s in Ring(agg.View()) && s.closedAt.Some? && store.Valid()
      modifies store
      ensures store.Valid() && store.window == old(store.window)
      ensures ok <==> Recordable(old(store.fed), SampleOf(lens, Ring(agg.View()), s), store.window)
      ensures store.fed == old(store.fed) + if ok then [SampleOf(lens, Ring(agg.View()), s)] else []
    {
      hide Inv, KeyMap, Recordable, ById, WalkedSplits, GraphSeriesStore.TooLate;
      agg.EntryOf(s.id);
      assert s.id in IdSet(Ring(agg.View()));
      var value := match lens.metric
        case Total => Spans.Total(s)
        case SelfTime => SatSub(Spans.Total(s), At(agg.childSum, s.id))
        case Count => 1;
      var key := agg.CollectSplitsFor(s.id, lens.splitKeys);
      ok := store.Record(key, s.closedAt.value, value);
    }

    /** Offers the span of this id, if it is in the ring and on the locked stack. */
    method OfferId(agg: Aggregator, id: nat) returns (ok: bool)
      requires agg.Valid() && store.Valid()
      modifies store
      ensures store.Valid() && store.window == old(store.window)
      ensures id !in IdSet(Ring(agg.View())) ==> ok && store.fed == old(store.fed)
      ensures forall s :: s in Ring(agg.View()) && s.id == id ==>
        var more := Feed(lens, Ring(agg.View()), KeyMap(agg.log, agg.splitKeys), [s]);
        (ok <==> AllRecordable(old(store.fed), more, store.window)) && (ok ==> store.fed == old(store.fed) + more)
    {
      hide Inv, KeyMap, Recordable, ById, WalkedSplits, SampleOf, Feed, Aggregator.Mirrored, SeriesAre, Latest, Origin,
           AllRecordable;
      agg.EntryOf(id);
      ok := true;
      AllRecordableNone(store.fed, store.window);
      if id in agg.byId {
        var entry := agg.byId[id];
        FeedOne(lens, Ring(agg.View()), KeyMap(agg.log, agg.splitKeys), entry.span);
        if entry.bucket.stack == lens.lockedStack {
          RingIsClosed(agg.View(), entry.span);
          AllRecordableOne(store.fed, SampleOf(lens, Ring(agg.View()), entry.span), store.window);
          ok := RecordSpan(agg, entry.span);
        }
      }
    }

    lemma RingIsClosed(c: Core, s: WireSpan)
      requires Inv(c, []) && s in Ring(c)
      ensures s.closedAt.Some?
    {
      assert s in c.log;
    }

    lemma FeedNext(ring: seq<WireSpan>, keys: map<nat, BucketKey>, spans: seq<WireSpan>, fed0: seq<Sample>, i: nat,
                   window: nat)
      requires i < |spans| && window >= 1
      ensures var before, here := Feed(lens, ring, keys, spans[..i]), Feed(lens, ring, keys, [spans[i]]);
              && fed0 + before + here == fed0 + Feed(lens, ring, keys, spans[..i + 1])
              && (AllRecordable(fed0, Feed(lens, ring, keys, spans[..i + 1]), window)
                  <==> AllRecordable(fed0, before, window) && AllRecordable(fed0 + before, here, window))
              && (AllRecordable(fed0, Feed(lens, ring, keys, spans), window)
                  ==> AllRecordable(fed0, Feed(lens, ring, keys, spans[..i + 1]), window))
    {
      hide Feed, AllRecordable;
      var before, here := Feed(lens, ring, keys, spans[..i]), Feed(lens, ring, keys, [spans[i]]);
      assert spans[..i + 1] == spans[..i] + [spans[i]];
      FeedConcat(lens, ring, keys, spans[..i], [spans[i]]);
      AllRecordableConcat(fed0, before, here, window);
      FeedConcat(lens, ring, keys, spans[..i + 1], spans[i + 1..]);
      assert spans == spans[..i + 1] + spans[i + 1..];
      AllRecordableConcat(fed0, before + here, Feed(lens, ring, keys, spans[i + 1..]), window);
    }

    /** Offers, in order, every listed span that is in the ring on the locked stack.  The spans
        `left` at the head of the list have already been evicted.  Stops at a sample that cannot be
        recorded, as the console does. */
    method FeedIds(agg: Aggregator, ids: seq<nat>, ghost left: seq<WireSpan>, ghost spans: seq<WireSpan>)
      returns (ok: bool)
      requires agg.Valid() && store.Valid() && ids == Ids(left + spans)
      requires forall i :: 0 <= i < |left| ==> left[i].id !in IdSet(Ring(agg.View()))
      requires forall i :: 0 <= i < |spans| ==> spans[i] in Ring(agg.View())
      modifies store
      ensures store.Valid() && store.window == old(store.window)
      ensures var more := Feed(lens, Ring(agg.View()), KeyMap(agg.log, agg.splitKeys), spans);
              (ok <==> AllRecordable(old(store.fed), more, store.window)) && (ok ==> store.fed == old(store.fed) + more)
    {
      hide KeyMap, AllRecordable, Feed, Inv, Aggregator.Mirrored, SeriesAre, Latest, Origin;
      ghost var fed0, w := store.fed, store.window;
      ghost var ring, keys := Ring(agg.View()), KeyMap(agg.log, agg.splitKeys);
      ghost var n := |left|;
      FeedNone(ring, keys, fed0);
      AllRecordableNone(fed0, w);
      ok := true;
      for i := 0 to |ids|
        invariant store.Valid() && store.window == w
        invariant var done := Feed(lens, ring, keys, spans[..if i <= n then 0 else i - n]);
                  store.fed == fed0 + done && AllRecordable(fed0, done, w)
      {
        agg.EntryOf(ids[i]);
        if i >= n {
          FeedNext(ring, keys, spans, fed0, i - n, w);
        }
        ok := OfferId(agg, ids[i]);
        if !ok {
          return;
        }
      }
      assert spans[..|spans|] == spans;
      ok := true;
    }

    lemma FeedNone(ring: seq<WireSpan>, keys: map<nat, BucketKey>, fed0: seq<Sample>)
      ensures Feed(lens, ring, keys, []) == [] && fed0 + Feed(lens, ring, keys, []) == fed0
    {
    }

    /** Discards the store and offers the whole ring again. */
    method Rehydrate(agg: Aggregator) returns (ok: bool)
      requires agg.Valid() && windowNs >= 1
      modifies store
      ensures store.Valid() && store.window == windowNs
      ensures ok <==> AllRecordable([], RingFeed(lens, agg.View(), agg.splitKeys), windowNs)
      ensures ok ==> store.fed == RingFeed(lens, agg.View(), agg.splitKeys)
      ensures ok ==> store.fed == Charted(lens, agg.log, Ring(agg.View()), Ring(agg.View()))
    {
      hide Inv, KeyMap, AllRecordable, Feed, Charted, Aggregator.Mirrors, SeriesAre, Latest, Origin;
      store.ResetWindow(windowNs);
      agg.MirrorsIds(agg.log[agg.start..], KeyMap(agg.log, agg.splitKeys));
      assert [] + Ring(agg.View()) == Ring(agg.View());
      ok := FeedIds(agg, agg.order, [], Ring(agg.View()));
      assert [] + RingFeed(lens, agg.View(), agg.splitKeys) == RingFeed(lens, agg.View(), agg.splitKeys);
      FeedsAreCharted(lens, agg.View(), agg.View(), agg.splitKeys);
    }

    /** A span arrives while the chart is up: absorb it, then offer everything it brought in. */
    method SpanReceived(agg: Aggregator, s: WireSpan) returns (ok: bool)
      requires agg.Valid() && store.Valid() && (s.closedAt.Some? ==> Unused(agg.View(), [s]))
      modifies agg, store
      ensures agg.Valid() && store.Valid() && store.window == old(store.window)
      ensures agg.View() == Drain(old(agg.View()), Closed([s])) && agg.splitKeys == old(agg.splitKeys)
      ensures old(agg.log) <= agg.log
      ensures var more := NewFeed(lens, old(agg.View()), agg.View(), agg.splitKeys);
              (ok <==> AllRecordable(old(store.fed), more, store.window)) && (ok ==> store.fed == old(store.fed) + more)
      ensures ok ==>
        var from := if agg.start > |old(agg.log)| then agg.start else |old(agg.log)|;
        store.fed == old(store.fed) + Charted(lens, agg.log, Ring(agg.View()), agg.log[from..])
      ensures ok && agg.start == old(agg.start) && old(store.fed) == RingFeed(lens, old(agg.View()), agg.splitKeys) ==>
        (store.fed == RingFeed(lens, agg.View(), agg.splitKeys)
         <==> ReadingsStand(lens, old(agg.View()), agg.View(), agg.splitKeys))
    {
      hide KeyMap, AllRecordable, Feed, Inv, Aggregator.Mirrored, SeriesAre, Latest, Origin, Drain, Unused,
           ReadingsStand, Charted;
      ghost var c := agg.View();
      InvWindow(c, []);
      var inserted := agg.Absorb(s);
      ghost var d := agg.View();
      InvWindow(d, []);
      ghost var from := if d.start > |c.log| then d.start else |c.log|;
      LeftTheRing(c, d, from);
      ok := FeedIds(agg, inserted, d.log[|c.log|..from], d.log[from..]);
      FeedsAreCharted(lens, c, d, agg.splitKeys);
      if d.start == c.start {
        ReachableIsGrown(c, d);
        RehydrateExtendsIff(lens, c, d, agg.splitKeys);
      }
    }

    /** A whole batch arrives under a chart of durations or counts that shows what a rebuild would.
        If every sample was recorded and nothing evicted, it still does; by `SameFeedSameChart` the
        two charts are then the same. */
    method Follow(agg: Aggregator, batch: seq<WireSpan>) returns (ok: bool)
      requires agg.Valid() && store.Valid() && Unused(agg.View(), Closed(batch)) && lens.metric != SelfTime
      requires store.fed == RingFeed(lens, agg.View(), agg.splitKeys)
      modifies agg, store
      ensures agg.Valid() && store.Valid() && store.window == old(store.window) && agg.splitKeys == old(agg.splitKeys)
      ensures ok ==> agg.View() == Drain(old(agg.View()), Closed(batch))
      ensures ok && agg.start == old(agg.start) ==> store.fed == RingFeed(lens, agg.View(), agg.splitKeys)
    {
      hide Inv, Aggregator.Tables, Unused, Everything, Drain, SeriesAre, Latest, Origin, AllRecordable, Feed, KeyMap,
           ReadingsStand;
      ghost var c := agg.View();
      InvWindow(c, []);
      assert batch[..0] == [] && batch[0..] == batch && Closed([]) == [];
      DrainNothing(c);
      ok := true;
      for i := 0 to |batch|
        invariant ok && agg.Valid() && store.Valid() && store.window == old(store.window)
        invariant agg.splitKeys == old(agg.splitKeys)
        invariant agg.View() == Drain(c, Closed(batch[..i])) && Unused(agg.View(), Closed(batch[i..]))
        invariant c.start <= agg.start <= |agg.log|
        invariant agg.start == c.start ==> store.fed == RingFeed(lens, agg.View(), agg.splitKeys)
      {
        ghost var before := agg.View();
        NextArrival(c, before, batch, i);
        ok := SpanReceived(agg, batch[i]);
        InvWindow(agg.View(), []);
        DurationsStand(lens, before, agg.View(), agg.splitKeys);
        if !ok {
          return;
        }
      }
      assert batch[..|batch|] == batch;
    }

    lemma LeftTheRing(c: Core, d: Core, from: nat)
      requires c.start <= |c.log| && Inv(d, []) && c.log <= d.log
      requires from == if d.start > |c.log| then d.start else |c.log|
      ensures d.start <= |d.log|
      ensures NewIds(c.log, d.log) == Ids(d.log[|c.log|..from] + d.log[from..])
      ensures forall i :: 0 <= i < from - |c.log| ==> d.log[|c.log|..from][i].id !in IdSet(Ring(d))
      ensures forall i :: 0 <= i < |d.log| - from ==> d.log[from..][i] in Ring(d)
    {
      hide Inv, ParentsFirst, DistinctIds;
      InvLog(d);
      LogHasDistinctIds(d);
      CutAt(d.log, |c.log|, from, d.start);
    }

    lemma CutAt(log: seq<WireSpan>, n: nat, from: nat, start: nat)
      requires DistinctIds(log) && n <= from <= |log| && start <= from && (from == n || from == start)
      ensures log[n..] == log[n..from] + log[from..]
      ensures forall i :: 0 <= i < from - n ==> log[n..from][i].id !in IdSet(log[start..])
      ensures forall i :: 0 <= i < |log| - from ==> log[from..][i] in log[start..]
    {
      hide DistinctIds, IdSet;
      forall i | 0 <= i < from - n ensures log[n..from][i].id !in IdSet(log[start..]) {
        EarlierIsOut(log, start, n + i);
      }
      forall i | 0 <= i < |log| - from ensures log[from..][i] in log[start..] {
        assert log[start..][from + i - start] == log[from..][i];
      }
    }

    lemma EarlierIsOut(log: seq<WireSpan>, start: nat, i: nat)
      requires DistinctIds(log) && i < start <= |log|
      ensures log[i].id !in IdSet(log[start..])
    {
      forall s | s in log[start..] ensures s.id != log[i].id {
        var j :| 0 <= j < |log| - start && log[start..][j] == s;
        assert log[start + j] == s;
      }
    }
  }

  /** Two stores that were offered the same samples show the same thing. */
  lemma SameFeedSameChart(a: GraphSeriesStore, b: GraphSeriesStore)
    requires a.Valid() && b.Valid() && a.fed == b.fed && a.window == b.window
    ensures a.origin == b.origin && a.latestBin == b.latestBin && a.series == b.series
  {
    hide Latest, Origin, SeriesAre;
    ContentsAreDetermined(a.series, b.series, a.fed, a.window);
  }
}
