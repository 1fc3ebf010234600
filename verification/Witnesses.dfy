/** Inputs at which the limits proved elsewhere are reached. */
module Witnesses {
  import opened Spans
  import opened Forest
  import opened Survival
  import opened Chains
  import opened Reference
  import opened Runs
  import opened Snapshots
  import ReferenceBuckets
  import OpenSpans

  // ── A chain of any length that fits ──

  /** `n` spans, each the parent of the next. */
  function Line(n: nat): (r: seq<WireSpan>)
    ensures |r| == n
  {
    seq(n, i requires 0 <= i < n =>
      WireSpan(i + 1, if i == 0 then None else Some(i as nat), "s", [], [], 0, Some(1)))
  }

  function Down(n: nat, i: nat): (r: seq<WireSpan>)
    requires i < n
    ensures |r| == i + 1 && r[0] == Line(n)[i]
  {
    [Line(n)[i]] + if i == 0 then [] else Down(n, i - 1)
  }

  lemma LineAt(n: nat, i: nat)
    requires i < n
    ensures Line(n)[i] in Line(n) && Line(n)[i].id == i + 1
    ensures Line(n)[i].parent == if i == 0 then None else Some(i)
  {
  }

  lemma {:induction false} DownIsPath(n: nat, i: nat)
    requires i < n
    ensures Path(Line(n), Down(n, i))
  {
    hide Line, Path;
    LineAt(n, i);
    if i == 0 {
      assert Down(n, 0) == [Line(n)[0]];
      PathOne(Line(n), Line(n)[0]);
    } else {
      LineAt(n, i - 1);
      DownIsPath(n, i - 1);
      PathCons(Line(n), Line(n)[i], Down(n, i - 1));
    }
  }

  lemma PathOne(spans: seq<WireSpan>, s: WireSpan)
    requires s in spans && s.parent.None?
    ensures Path(spans, [s])
  {
  }

  lemma PathCons(spans: seq<WireSpan>, s: WireSpan, rest: seq<WireSpan>)
    requires Path(spans, rest) && s in spans && s.parent == Some(rest[0].id)
    ensures Path(spans, [s] + rest)
  {
    assert ([s] + rest)[1..] == rest;
  }

  lemma {:induction false} AllRenderable(spans: seq<WireSpan>, buffer: seq<WireSpan>)
    requires forall s :: s in spans ==> Rooted(buffer, s)
    ensures Renderable(spans, buffer) == spans
  {
    hide Rooted;
    if spans == [] {
    } else {
      assert spans[0] in spans && spans == [spans[0]] + spans[1..];
      AllRenderable(spans[1..], buffer);
    }
  }

  lemma LineIsRenderable(n: nat)
    ensures Renderable(Line(n), Line(n)) == Line(n)
  {
    hide Path;
    forall s | s in Line(n) ensures Rooted(Line(n), s) {
      var i :| 0 <= i < n && Line(n)[i] == s;
      DownIsPath(n, i);
    }
    AllRenderable(Line(n), Line(n));
  }

  lemma LineFits(n: nat, budget: nat)
    requires budget >= n
    ensures Fits(budget, Line(n))
  {
    hide Renderable, Line;
    LineIsRenderable(n);
    forall k | 0 <= k <= n ensures Stranded(Line(n), k) <= Fresh(budget).cap {
      LinePrefix(n, k);
      LineIsRenderable(k);
    }
  }

  lemma LinePrefix(n: nat, k: nat)
    requires k <= n
    ensures Line(n)[..k] == Line(k)
  {
  }

  lemma LineIsPlain(n: nat)
    ensures DistinctIds(Line(n)) && AllClosed(Line(n))
  {
  }

  lemma LineIsLong(n: nat)
    requires n > WALK_LIMIT
    ensures !ShortChains(Line(n))
  {
    hide Path, Line;
    DownIsPath(n, n - 1);
  }

  /** A run that fits and holds a chain of more than 65 spans: there the capped reference is wrong. */
  lemma DeepRunDiffers(n: nat, budget: nat, splitKeys: set<string>)
    requires n > WALK_LIMIT && budget >= n
    ensures UniqueIds(multiset(Line(n))) && Fits(budget, Line(n)) && Closed(Line(n)) == Line(n)
    ensures AggregatorRows(Run(budget, Line(n)), splitKeys) != ReferenceRows(Line(n), splitKeys)
  {
    hide Fits, AggregatorRows, ReferenceRows, UncappedRows, UniqueIds, Run, Rooted, Line, ShortChains, DistinctIds;
    LineIsPlain(n);
    DistinctMeansUnique(Line(n));
    LineFits(n, budget);
    ClosedKeepsAll(Line(n));
    LineIsLong(n);
    RunMatchesReference(budget, Line(n), splitKeys);
  }

  // ── A ring whose entry lost its ancestor ──

  const ROOT := WireSpan(1, None, "r", [], [], 0, Some(10))
  const CHILD := WireSpan(2, Some(1), "x", [], [], 0, Some(4))
  const OTHER := WireSpan(3, None, "o", [], [], 0, Some(10))

  lemma EvictedRootState()
    ensures Drain(Fresh(2), [ROOT, CHILD, OTHER]) == Core(2, 1, [ROOT, CHILD, OTHER], 1, map[], multiset{})
  {
    hide PoolSize, PoolSpans, Drain, IdSet;
    var c1 := Core(2, 1, [ROOT], 0, map[], multiset{});
    var c2 := Core(2, 1, [ROOT, CHILD], 0, map[], multiset{});
    var c3 := Core(2, 1, [ROOT, CHILD, OTHER], 1, map[], multiset{});
    assert [ROOT] + [CHILD, OTHER] == [ROOT, CHILD, OTHER];
    DrainPlaces(Fresh(2), ROOT, [CHILD, OTHER], c1);
    assert [CHILD] + [OTHER] == [CHILD, OTHER] && 1 in IdSet(Ring(c1)) by { IdsOf(Ring(c1), ROOT); }
    DrainPlaces(c1, CHILD, [OTHER], c2);
    assert [OTHER] + [] == [OTHER];
    DrainPlaces(c2, OTHER, [], c3);
    DrainNothing(c3);
  }

  lemma IdsOf(spans: seq<WireSpan>, s: WireSpan)
    requires s in spans
    ensures s.id in IdSet(spans)
  {
  }

  lemma EvictedRootReached()
    ensures Inv(Drain(Fresh(2), [ROOT, CHILD, OTHER]), [])
  {
    hide Drain, Inv, UniqueIds;
    DistinctMeansUnique([ROOT, CHILD, OTHER]);
    Reached(2, [ROOT, CHILD, OTHER]);
  }

  lemma RootsReached()
    ensures Inv(Drain(Fresh(2), [ROOT]), []) && Inv(Drain(Fresh(2), [ROOT, CHILD]), [])
  {
    hide Drain, Inv, UniqueIds;
    DistinctMeansUnique([ROOT]);
    Reached(2, [ROOT]);
    DistinctMeansUnique([ROOT, CHILD]);
    Reached(2, [ROOT, CHILD]);
  }

  lemma RootAndChild()
    ensures var c := Drain(Fresh(2), [ROOT]); var d := Drain(c, [CHILD]);
            && c == Core(2, 1, [ROOT], 0, map[], multiset{}) && Inv(c, [])
            && d == Core(2, 1, [ROOT, CHILD], 0, map[], multiset{}) && Inv(d, [])
  {
    hide PoolSize, PoolSpans, Drain, IdSet, Inv, UniqueIds;
    var c1 := Core(2, 1, [ROOT], 0, map[], multiset{});
    var c2 := Core(2, 1, [ROOT, CHILD], 0, map[], multiset{});
    assert [ROOT] + [] == [ROOT] && [CHILD] + [] == [CHILD] && [ROOT] + [CHILD] == [ROOT, CHILD];
    DrainPlaces(Fresh(2), ROOT, [], c1);
    DrainNothing(c1);
    IdsOf(Ring(c1), ROOT);
    DrainPlaces(c1, CHILD, [], c2);
    DrainNothing(c2);
    RootsReached();
    DrainConcat(Fresh(2), [ROOT], [CHILD]);
  }

  /** Budget two, three spans: the child outlives its root, and both re-bucketing and a snapshot
      drop it. */
  lemma OrphanedEntryIsDropped(keys: set<string>)
    ensures var c := Drain(Fresh(2), [ROOT, CHILD, OTHER]);
            && Inv(c, []) && Ring(c) == [CHILD, OTHER]
            && Regroup(c).log == [OTHER] && Restored(c).log == [OTHER]
            && AggregatorRows(Restored(c), keys) != AggregatorRows(c, keys)
  {
    EvictedRootState();
    EvictedRootReached();
    var c := Drain(Fresh(2), [ROOT, CHILD, OTHER]);
    var r := [CHILD, OTHER];
    assert Ring(c) == r;
    assert r[..1] == [CHILD] && [CHILD][..0] == [];
    assert Survivors([CHILD]) == [];
    assert Survivors(r) == [OTHER];
    hide Inv, Drain, Survivors, Restored;
    RoundTrip(c);
    RingOrdered(c);
    CompleteIffAllSurvive(r);
    RowsComeBackIff(c, keys);
  }

  // ── A closed span under an open one ──

  const OPEN_ROOT := WireSpan(1, None, "r", [], [], 0, None)

  lemma OpenParentFits()
    ensures DistinctIds([OPEN_ROOT, CHILD]) && Closed([OPEN_ROOT, CHILD]) == [CHILD] && Fits(2, [CHILD])
  {
    hide Rooted;
    assert [OPEN_ROOT] + [CHILD] == [OPEN_ROOT, CHILD] && [CHILD] + [] == [CHILD] && [CHILD][1..] == [];
    ClosedCons(OPEN_ROOT, [CHILD]);
    ClosedCons(CHILD, []);
    var spans := [CHILD];
    ReferenceBuckets.RootedEnds(spans, CHILD);
    assert 1 !in IdSet(spans);
    assert Renderable(spans, spans) == [];
    forall n | 0 <= n <= |spans| ensures Stranded(spans, n) <= Fresh(2).cap {
      if n == 1 {
        assert spans[..n] == spans;
      }
    }
  }

  /** An open root and its closed child: the reference counts the child, the aggregator waits for the
      root to close. */
  lemma OpenParentDiffers(keys: set<string>)
    ensures DistinctIds([OPEN_ROOT, CHILD]) && Fits(2, Closed([OPEN_ROOT, CHILD]))
    ensures AggregatorRows(Run(2, [OPEN_ROOT, CHILD]), keys)
            != ReferenceBuckets.CountedRows([OPEN_ROOT, CHILD], keys)
  {
    hide AggregatorRows, ReferenceBuckets.CountedRows, Fits, Run, Path, DistinctIds, Closed;
    var arrivals := [OPEN_ROOT, CHILD];
    OpenParentFits();
    PathOne(arrivals, OPEN_ROOT);
    PathCons(arrivals, CHILD, [OPEN_ROOT]);
    assert [CHILD] + [OPEN_ROOT] == [CHILD, OPEN_ROOT] && OPEN_ROOT in [CHILD, OPEN_ROOT];
    assert Path(arrivals, [CHILD, OPEN_ROOT]) && !AllClosed([CHILD, OPEN_ROOT]);
    assert !OpenSpans.NoOpenAncestor(arrivals);
    OpenSpans.OpenSpansMatterIff(2, arrivals, keys);
  }
}
