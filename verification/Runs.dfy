/** Whole runs from an empty aggregator: which inputs fit, and what every run that fits shows. */
module Runs {
  import opened Spans
  import opened Forest
  import opened Survival
  import opened Reference

  /** The state after absorbing `arrivals`, open spans included and ignored. */
  ghost function Run(budget: nat, arrivals: seq<WireSpan>): Core
    requires budget >= 1
  {
    Drain(Fresh(budget), Closed(arrivals))
  }

  lemma {:induction false} ClosedIsClosed(batch: seq<WireSpan>)
    ensures AllClosed(Closed(batch))
  {
    if batch == [] {
    } else {
      ClosedIsClosed(batch[1..]);
    }
  }

  lemma Reached(budget: nat, spans: seq<WireSpan>)
    requires budget >= 1 && UniqueIds(multiset(spans)) && AllClosed(spans)
    ensures var c := Drain(Fresh(budget), spans); Inv(c, []) && Everything(c) == multiset(spans)
  {
    var c := Fresh(budget);
    assert Everything(c) == multiset{} && multiset{} + multiset(spans) == multiset(spans);
    FreshInv(budget);
    Admit(c, spans);
    assert spans + [] == spans;
    DrainKeeps(c, spans, []);
    Conservation(c, spans);
  }

  /** Conditions on the input alone: every renderable span fits the ring, and after each arrival
      the spans that are not yet renderable fit the pool. */
  ghost predicate Fits(budget: nat, spans: seq<WireSpan>) {
    && |Renderable(spans, spans)| <= budget
    && forall n :: 0 <= n <= |spans| ==> Stranded(spans, n) <= Fresh(budget).cap
  }

  ghost function Stranded(spans: seq<WireSpan>, n: nat): int
    requires n <= |spans|
  {
    n - |Renderable(spans[..n], spans[..n])|
  }

  // ── The window slides only when the log outgrows the budget ──

  lemma {:induction false} DrainWindow(c: Core, work: seq<WireSpan>)
    requires Windowed(c)
    ensures var d := Drain(c, work);
            d.start == if |d.log| - c.budget > c.start then |d.log| - c.budget else c.start
    ensures c.lost <= Drain(c, work).lost
    decreases PoolSize(c.pending) + |work|, |work|
  {
    if work == [] {
    } else {
      var s, rest := work[0], work[1..];
      if Resolvable(c, s) {
        PoolWithout(c.pending, s.id);
        DrainWindow(Commit(c, s), Waiters(c.pending, s.id) + rest);
        DrainAppends(Commit(c, s), Waiters(c.pending, s.id) + rest);
      } else {
        ParkSize(c, s);
        DrainWindow(Park(c, s), rest);
      }
    }
  }

  ghost predicate AllReady(c: Core, work: seq<WireSpan>)
    requires c.start <= |c.log|
  {
    forall s :: s in work ==> Resolvable(c, s)
  }

  /** A cascade of released waiters parks nothing while nothing is evicted. */
  lemma {:induction false} CascadeLosesNothing(c: Core, work: seq<WireSpan>)
    requires Inv(c, work) && AllReady(c, work) && Drain(c, work).start == 0
    ensures Drain(c, work).lost == c.lost
    decreases PoolSize(c.pending) + |work|, |work|
  {
    if work == [] {
    } else {
      var s, rest := work[0], work[1..];
      var ws := Waiters(c.pending, s.id);
      assert work == [s] + rest && s in work;
      CommitKeeps(c, s, rest);
      PoolWithout(c.pending, s.id);
      DrainWindow(Commit(c, s), ws + rest);
      StillReady(c, s, rest);
      CascadeLosesNothing(Commit(c, s), ws + rest);
    }
  }

  lemma StillReady(c: Core, s: WireSpan, rest: seq<WireSpan>)
    requires Windowed(c) && PoolKeyed(c) && AllReady(c, [s] + rest) && Commit(c, s).start == 0
    ensures AllReady(Commit(c, s), Waiters(c.pending, s.id) + rest)
  {
    var d := Commit(c, s);
    assert Ring(d) == Ring(c) + [s];
    forall t | t in Waiters(c.pending, s.id) + rest ensures Resolvable(d, t) {
      if t in rest {
        assert t in [s] + rest && Resolvable(c, t);
        if t.parent.Some? {
          var u :| u in Ring(c) && u.id == t.parent.value;
          assert u in Ring(d);
        }
      } else {
        assert WaitersFor(s.id, c.pending[s.id]);
        assert s in Ring(d);
      }
    }
  }

  // ── One arrival ──

  lemma BagEmpty<T>(a: multiset<T>, b: multiset<T>)
    ensures a + b == a <==> |b| == 0
  {
    assert (a + b) - a == b;
  }

  lemma ParkLosesIffFull(c: Core, s: WireSpan)
    requires s.parent.Some?
    ensures Park(c, s).lost == c.lost <==> PoolSize(c.pending) + 1 <= c.cap
  {
    var m := Enqueue(c.pending, s.parent.value, s);
    EnqueueSpans(c.pending, s.parent.value, s);
    TrimFacts(m, c.cap);
    var full, kept := PoolSpans(m), PoolSpans(Trim(m, c.cap));
    SubBag(kept, full);
    assert |full| == PoolSize(c.pending) + 1 && |full| == |kept| + |full - kept|;
    BagEmpty(c.lost, full - kept);
  }

  lemma StepIntact(c: Core, s: WireSpan)
    requires Intact(c) && Inv(c, [s])
    requires |Drain(c, [s]).log| <= c.budget
    requires Resolvable(c, s) || PoolSize(c.pending) + 1 <= c.cap
    ensures Intact(Drain(c, [s]))
  {
    assert [s] + [] == [s];
    DrainKeeps(c, [s], []);
    DrainWindow(c, [s]);
    if Resolvable(c, s) {
      CascadeLosesNothing(c, [s]);
    } else {
      ParkTurn(c, s, []);
      ParkLosesIffFull(c, s);
    }
  }

  // ── Every prefix of a run ──

  ghost function Prefix(budget: nat, spans: seq<WireSpan>, n: nat): Core
    requires budget >= 1 && n <= |spans|
  {
    Drain(Fresh(budget), spans[..n])
  }

  lemma PrefixReached(budget: nat, spans: seq<WireSpan>, n: nat)
    requires budget >= 1 && UniqueIds(multiset(spans)) && AllClosed(spans) && n <= |spans|
    ensures Inv(Prefix(budget, spans, n), []) && Everything(Prefix(budget, spans, n)) == multiset(spans[..n])
  {
    assert spans == spans[..n] + spans[n..];
    UniqueSub(multiset(spans[..n]), multiset(spans));
    Reached(budget, spans[..n]);
  }

  lemma PrefixStep(budget: nat, spans: seq<WireSpan>, n: nat)
    requires budget >= 1 && UniqueIds(multiset(spans)) && AllClosed(spans) && n < |spans|
    ensures Prefix(budget, spans, n + 1) == Drain(Prefix(budget, spans, n), [spans[n]])
    ensures Inv(Prefix(budget, spans, n), [spans[n]])
  {
    hide Inv, UniqueIds, Everything, Drain;
    assert spans[..n + 1] == spans[..n] + [spans[n]];
    DrainConcat(Fresh(budget), spans[..n], [spans[n]]);
    PrefixReached(budget, spans, n);
    assert spans == spans[..n + 1] + spans[n + 1..];
    UniqueSub(multiset(spans[..n + 1]), multiset(spans));
    assert multiset(spans[..n + 1]) == multiset(spans[..n]) + multiset([spans[n]]);
    assert AllClosed([spans[n]]);
    Admit(Prefix(budget, spans, n), [spans[n]]);
  }

  lemma LoggedIsRenderable(c: Core, arrivals: seq<WireSpan>, s: WireSpan)
    requires Inv(c, []) && Everything(c) == multiset(arrivals) && s in c.log
    ensures Rooted(arrivals, s)
  {
    var i :| 0 <= i < |c.log| && c.log[i] == s;
    LoggedIsRooted(c.log, i);
    var path :| Path(c.log, path) && path[0] == s;
    forall t | t in c.log ensures t in arrivals { assert t in multiset(arrivals); }
    PathWidens(c.log, arrivals, path);
  }

  /** In any reached state the log is part of the renderable arrivals. */
  lemma LogIsRenderable(c: Core, arrivals: seq<WireSpan>)
    requires Inv(c, []) && Everything(c) == multiset(arrivals)
    ensures multiset(c.log) <= multiset(Renderable(arrivals, arrivals))
    ensures |c.log| <= |Renderable(arrivals, arrivals)|
  {
    var r := Renderable(arrivals, arrivals);
    forall s ensures multiset(c.log)[s] <= multiset(r)[s] {
      RenderableCount(arrivals, arrivals, s);
      if s in c.log {
        LoggedIsRenderable(c, arrivals, s);
      }
      assert multiset(c.log)[s] <= Everything(c)[s] == multiset(arrivals)[s];
    }
    SubBag(multiset(c.log), multiset(r));
  }

  lemma RenderableGrows(spans: seq<WireSpan>, n: nat)
    requires n <= |spans|
    ensures |Renderable(spans[..n], spans[..n])| <= |Renderable(spans, spans)|
  {
    var p := spans[..n];
    assert spans == p + spans[n..];
    var a, b := multiset(Renderable(p, p)), multiset(Renderable(spans, spans));
    forall s ensures a[s] <= b[s] {
      RenderableCount(p, p, s);
      RenderableCount(spans, spans, s);
      if Rooted(p, s) {
        var path :| Path(p, path) && path[0] == s;
        PathWidens(p, spans, path);
      }
    }
    SubBag(a, b);
  }

  /** In an intact state the pool holds exactly the stranded arrivals. */
  lemma IntactCounts(c: Core, arrivals: seq<WireSpan>)
    requires Intact(c) && Everything(c) == multiset(arrivals)
    ensures |c.log| == |Renderable(arrivals, arrivals)|
    ensures PoolSize(c.pending) == |arrivals| - |Renderable(arrivals, arrivals)|
  {
    RingBag(c, arrivals);
    assert |c.log| == |multiset(c.log)| == |multiset(Renderable(arrivals, arrivals))|;
    assert |arrivals| == |multiset(arrivals)| == |multiset(c.log)| + PoolSize(c.pending);
  }

  /** Parking `s` would leave `arrivals + [s]` with the same renderable spans. */
  lemma ParkStrands(c: Core, arrivals: seq<WireSpan>, s: WireSpan)
    requires Intact(c) && Everything(c) == multiset(arrivals)
    requires Inv(c, [s]) && !Resolvable(c, s)
    ensures |Renderable(arrivals + [s], arrivals + [s])| == |c.log|
  {
    var roomy := c.(cap := c.cap + 1);
    ParkTurn(roomy, s, []);
    ParkLosesIffFull(roomy, s);
    ParkConserves(roomy, s);
    var d := Park(roomy, s);
    assert Everything(d) == multiset(arrivals + [s]);
    IntactCounts(d, arrivals + [s]);
  }

  lemma {:induction false} FittingPrefixesAreIntact(budget: nat, spans: seq<WireSpan>, n: nat)
    requires budget >= 1 && UniqueIds(multiset(spans)) && AllClosed(spans) && n <= |spans|
    requires Fits(budget, spans)
    ensures Intact(Prefix(budget, spans, n))
  {
    hide Inv, UniqueIds, Everything, Drain, Renderable;
    if n == 0 {
      FreshInv(budget);
      assert Prefix(budget, spans, 0) == Fresh(budget) by { assert spans[..0] == []; DrainNothing(Fresh(budget)); }
    } else {
      FittingPrefixesAreIntact(budget, spans, n - 1);
      FittingStep(budget, spans, n - 1);
    }
  }

  lemma FittingStep(budget: nat, spans: seq<WireSpan>, n: nat)
    requires budget >= 1 && UniqueIds(multiset(spans)) && AllClosed(spans) && n < |spans|
    requires Fits(budget, spans) && Intact(Prefix(budget, spans, n))
    ensures Intact(Prefix(budget, spans, n + 1))
  {
    hide Inv, UniqueIds, Everything, Drain, Renderable, Intact;
    var c, s := Prefix(budget, spans, n), spans[n];
    PrefixReached(budget, spans, n);
    PrefixReached(budget, spans, n + 1);
    PrefixStep(budget, spans, n);
    LogIsRenderable(Prefix(budget, spans, n + 1), spans[..n + 1]);
    RenderableGrows(spans, n + 1);
    if !Resolvable(c, s) {
      ParkStrands(c, spans[..n], s);
      assert spans[..n] + [s] == spans[..n + 1];
      IntactCounts(c, spans[..n]);
      assert Stranded(spans, n + 1) <= c.cap;
    }
    StepIntact(c, s);
  }

  lemma PrefixOfIntact(budget: nat, spans: seq<WireSpan>, n: nat)
    requires budget >= 1 && UniqueIds(multiset(spans)) && AllClosed(spans) && n <= |spans|
    requires Intact(Drain(Fresh(budget), spans))
    ensures Intact(Prefix(budget, spans, n))
    ensures Stranded(spans, n) <= Fresh(budget).cap
  {
    hide Inv, UniqueIds, Everything, Drain, Renderable;
    var c := Prefix(budget, spans, n);
    PrefixReached(budget, spans, n);
    assert spans == spans[..n] + spans[n..];
    DrainConcat(Fresh(budget), spans[..n], spans[n..]);
    DrainWindow(c, spans[n..]);
    DrainAppends(c, spans[n..]);
    IntactCounts(c, spans[..n]);
    PoolFits(c);
  }

  lemma PoolFits(c: Core)
    requires Inv(c, [])
    ensures PoolSize(c.pending) <= c.cap && |c.log| - c.start <= c.budget
  {
  }

  /** A run evicts nothing and loses nothing exactly when its input fits. */
  lemma IntactIffFits(budget: nat, spans: seq<WireSpan>)
    requires budget >= 1 && UniqueIds(multiset(spans)) && AllClosed(spans)
    ensures Intact(Drain(Fresh(budget), spans)) <==> Fits(budget, spans)
  {
    hide Inv, UniqueIds, Everything, Drain, Renderable;
    var d := Drain(Fresh(budget), spans);
    assert spans[..|spans|] == spans;
    if Fits(budget, spans) {
      FittingPrefixesAreIntact(budget, spans, |spans|);
    }
    if Intact(d) {
      Reached(budget, spans);
      IntactCounts(d, spans);
      PoolFits(d);
      forall n | 0 <= n <= |spans| ensures Stranded(spans, n) <= Fresh(budget).cap {
        PrefixOfIntact(budget, spans, n);
      }
    }
  }

  // ── The two headline theorems on whole runs ──

  /** Every run that fits: the ring holds exactly the spans whose whole chain arrived and the pool
      holds the rest; the rows are the bucketing of the former by whole chains, at any depth; and they
      are the capped reference's exactly when no chain is longer than 65 spans. */
  lemma RunMatchesReference(budget: nat, arrivals: seq<WireSpan>, splitKeys: set<string>)
    requires budget >= 1 && UniqueIds(multiset(Closed(arrivals))) && Fits(budget, Closed(arrivals))
    ensures var c := Run(budget, arrivals);
            && (forall s :: s in Ring(c) <==> Rooted(Closed(arrivals), s))
            && PoolSpans(c.pending)
               == multiset(Closed(arrivals)) - multiset(Renderable(Closed(arrivals), Closed(arrivals)))
            && AggregatorRows(c, splitKeys) == UncappedRows(Closed(arrivals), splitKeys)
            && (AggregatorRows(c, splitKeys) == ReferenceRows(Closed(arrivals), splitKeys)
                <==> ShortChains(Closed(arrivals)))
  {
    var spans, c := Closed(arrivals), Run(budget, arrivals);
    ClosedIsClosed(arrivals);
    Reached(budget, spans);
    IntactIffFits(budget, spans);
    assert Ring(c) == c.log;
    forall s ensures s in c.log <==> Rooted(spans, s) {
      RingIsTheRenderable(c, spans, s);
    }
    RingBag(c, spans);
    assert Everything(c) - multiset(c.log) == PoolSpans(c.pending);
    RowsAreUncapped(c, spans, splitKeys);
    ParityIffShortChains(c, spans, splitKeys);
  }

  /** Arrival order does not matter, at any depth. */
  lemma RunsAgree(budget: nat, a: seq<WireSpan>, b: seq<WireSpan>, splitKeys: set<string>)
    requires budget >= 1 && UniqueIds(multiset(Closed(a))) && multiset(Closed(a)) == multiset(Closed(b))
    requires Fits(budget, Closed(a)) && Fits(budget, Closed(b))
    ensures AggregatorRows(Run(budget, a), splitKeys) == AggregatorRows(Run(budget, b), splitKeys)
    ensures PoolSpans(Run(budget, a).pending) == PoolSpans(Run(budget, b).pending)
  {
    ClosedIsClosed(a);
    ClosedIsClosed(b);
    Reached(budget, Closed(a));
    Reached(budget, Closed(b));
    IntactIffFits(budget, Closed(a));
    IntactIffFits(budget, Closed(b));
    ArrivalOrderIsIrrelevant(Run(budget, a), Run(budget, b), splitKeys);
  }

  // ── After re-bucketing ──

  ghost function Alone(c: Core): Core {
    c.(pending := map[], lost := multiset{})
  }

  lemma AloneIsIntact(c: Core)
    requires Inv(c, []) && c.start == 0
    ensures Intact(Alone(c)) && Everything(Alone(c)) == multiset(c.log)
  {
    assert Everything(Alone(c)) == multiset(c.log);
    assert multiset(c.log) <= Everything(c) + multiset([]);
    UniqueSub(multiset(c.log), Everything(c) + multiset([]));
  }

  /** After the split keys change, the rows are the bucketing of the surviving entries by whole chains
      under the new keys; the capped reference agrees exactly when no surviving chain is longer than
      65 spans. */
  lemma RegroupMatchesReference(c: Core, newKeys: set<string>)
    requires Inv(c, [])
    ensures Inv(Regroup(c), [])
    ensures AggregatorRows(Regroup(c), newKeys) == UncappedRows(Survivors(Ring(c)), newKeys)
    ensures AggregatorRows(Regroup(c), newKeys) == ReferenceRows(Survivors(Ring(c)), newKeys)
            <==> ShortChains(Survivors(Ring(c)))
  {
    hide Inv, Everything, Survivors, ShortChains, ReferenceRows, UncappedRows, Intact;
    RegroupKeeps(c);
    var d := Regroup(c);
    AloneIsIntact(d);
    RowsAreUncapped(Alone(d), d.log, newKeys);
    ParityIffShortChains(Alone(d), d.log, newKeys);
    assert AggregatorRows(Alone(d), newKeys) == AggregatorRows(d, newKeys);
  }
}
