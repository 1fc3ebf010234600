/** Spans that are still open: the reference counts them as present parents, the aggregator discards
    them on arrival. */
module OpenSpans {
  import opened Spans
  import opened Ledger
  import opened Forest
  import opened Survival
  import opened Chains
  import opened Bags
  import opened Reference
  import opened ReferenceBuckets
  import opened Runs

  /** No closed span hangs under an open one. */
  ghost predicate NoOpenAncestor(spans: seq<WireSpan>) {
    forall path: seq<WireSpan> :: Path(spans, path) && path[0].closedAt.Some? ==> AllClosed(path)
  }

  lemma {:induction false} ClosedMembers(spans: seq<WireSpan>, s: WireSpan)
    ensures s in Closed(spans) <==> s in spans && s.closedAt.Some?
  {
    if spans == [] {
    } else {
      assert spans == [spans[0]] + spans[1..];
      ClosedMembers(spans[1..], s);
    }
  }

  lemma {:induction false} ClosedPath(spans: seq<WireSpan>, path: seq<WireSpan>)
    requires Path(spans, path) && AllClosed(path)
    ensures Path(Closed(spans), path)
    decreases |path|
  {
    ClosedMembers(spans, path[0]);
    assert path[0] in path;
    if |path| == 1 {
    } else {
      forall s | s in path[1..] ensures s in path {}
      ClosedPath(spans, path[1..]);
    }
  }

  lemma {:induction false} PathUnique(spans: seq<WireSpan>, p: seq<WireSpan>, q: seq<WireSpan>)
    requires DistinctIds(spans) && Path(spans, p) && Path(spans, q) && p[0] == q[0]
    ensures p == q
    decreases |p|
  {
    if |p| == 1 {
      assert p == [p[0]] && q == [q[0]];
    } else {
      assert Path(spans, p[1..]) && Path(spans, q[1..]);
      assert p[1..][0] in spans && q[1..][0] in spans;
      SameId(spans, p[1], q[1]);
      PathUnique(spans, p[1..], q[1..]);
      assert p == [p[0]] + p[1..] && q == [q[0]] + q[1..];
    }
  }

  lemma SameId(spans: seq<WireSpan>, s: WireSpan, t: WireSpan)
    requires DistinctIds(spans) && s in spans && t in spans && s.id == t.id
    ensures s == t
  {
    var i :| 0 <= i < |spans| && spans[i] == s;
    var j :| 0 <= j < |spans| && spans[j] == t;
  }

  lemma ClosedIsWithin(spans: seq<WireSpan>, s: WireSpan)
    requires Rooted(Closed(spans), s)
    ensures Rooted(spans, s) && s.closedAt.Some?
  {
    var path :| Path(Closed(spans), path) && path[0] == s;
    forall t | t in Closed(spans) ensures t in spans { ClosedMembers(spans, t); }
    PathWidens(Closed(spans), spans, path);
    ClosedMembers(spans, s);
  }

  /** A closed span is renderable among the closed spans alone exactly when its chain is closed. */
  lemma RootedAmongClosedIff(spans: seq<WireSpan>, path: seq<WireSpan>)
    requires DistinctIds(spans) && Path(spans, path)
    ensures Rooted(Closed(spans), path[0]) <==> AllClosed(path)
  {
    if AllClosed(path) {
      ClosedPath(spans, path);
    }
    if Rooted(Closed(spans), path[0]) {
      var other :| Path(Closed(spans), other) && other[0] == path[0];
      forall t | t in Closed(spans) ensures t in spans { ClosedMembers(spans, t); }
      PathWidens(Closed(spans), spans, other);
      PathUnique(spans, path, other);
      PathMembers(Closed(spans), path);
      forall t | t in path ensures t.closedAt.Some? { ClosedMembers(spans, t); }
    }
  }

  lemma {:induction false} PathMembers(spans: seq<WireSpan>, path: seq<WireSpan>)
    requires Path(spans, path)
    ensures forall s :: s in path ==> s in spans
    decreases |path|
  {
    if |path| == 1 {
    } else {
      PathMembers(spans, path[1..]);
      assert path == [path[0]] + path[1..];
    }
  }

  /** Both notions of renderable say the same of every closed span of the list. */
  ghost predicate Agree(spans: seq<WireSpan>, buffer: seq<WireSpan>) {
    forall s :: s in spans && s.closedAt.Some? && Rooted(buffer, s) ==> Rooted(Closed(buffer), s)
  }

  lemma AgreeSnoc(front: seq<WireSpan>, s: WireSpan, buffer: seq<WireSpan>)
    ensures Agree(front + [s], buffer) <==>
            Agree(front, buffer) && (s.closedAt.Some? && Rooted(buffer, s) ==> Rooted(Closed(buffer), s))
  {
    hide Rooted;
    forall t ensures t in front + [s] <==> t in front || t == s {}
  }

  lemma CountingNext(front: seq<WireSpan>, s: WireSpan, buffer: seq<WireSpan>)
    ensures Counting(front + [s], buffer)
            == Counting(front, buffer) + if Rooted(buffer, s) && s.closedAt.Some? then [s] else []
    ensures Renderable(Closed(front + [s]), Closed(buffer))
            == Renderable(Closed(front), Closed(buffer)) + if Rooted(Closed(buffer), s) then [s] else []
  {
    hide Rooted, Counting, Renderable;
    CountingSnoc(front, s, buffer);
    ClosedConcat(front, [s]);
    assert [s][1..] == [] && [s] + [] == [s];
    if s.closedAt.Some? {
      assert Closed(front + [s]) == Closed(front) + [s];
      RenderableSnoc(Closed(front), s, Closed(buffer));
    } else {
      assert Closed(front) + [] == Closed(front);
      if Rooted(Closed(buffer), s) {
        ClosedIsWithin(buffer, s);
      }
      assert Renderable(Closed(front), Closed(buffer)) + [] == Renderable(Closed(front), Closed(buffer));
    }
  }

  lemma Longer<T>(few: seq<T>, a: seq<T>, many: seq<T>, b: seq<T>)
    requires |few| <= |many| && (|few| == |many| ==> few == many) && (a == [] || a == b)
    ensures |few + a| <= |many + b| && (|few + a| == |many + b| ==> few + a == many + b)
    ensures few + a == many + b <==> few == many && a == b
  {
    if few + a == many + b {
      assert |a| == |b| && |few| == |many|;
    }
  }

  /** With the open spans the reference counts at least as many, and more unless the two notions of
      renderable agree on every closed span. */
  lemma {:induction false} CountingIsMore(spans: seq<WireSpan>, buffer: seq<WireSpan>)
    ensures var few, many := Renderable(Closed(spans), Closed(buffer)), Counting(spans, buffer);
            && |few| <= |many| && (|few| == |many| ==> few == many)
            && (few == many <==> Agree(spans, buffer))
    decreases |spans|
  {
    if spans == [] {
    } else {
      hide Rooted, Agree, Counting, Renderable;
      var front, s := spans[..|spans| - 1], spans[|spans| - 1];
      assert spans == front + [s];
      CountingIsMore(front, buffer);
      CountingNext(front, s, buffer);
      AgreeSnoc(front, s, buffer);
      if Rooted(Closed(buffer), s) {
        ClosedIsWithin(buffer, s);
      }
      Longer(Renderable(Closed(front), Closed(buffer)), if Rooted(Closed(buffer), s) then [s] else [],
             Counting(front, buffer), if Rooted(buffer, s) && s.closedAt.Some? then [s] else []);
    }
  }

  /** The same spans, the same sums, the same capped walks: the same rows. */
  lemma SameRows(spans: seq<WireSpan>, splitKeys: set<string>)
    requires DistinctIds(spans) && NoOpenAncestor(spans)
    requires Counting(spans, spans) == Renderable(Closed(spans), Closed(spans))
    ensures CountedRows(spans, splitKeys) == ReferenceRows(Closed(spans), splitKeys)
  {
    hide Rooted, Counting, Renderable, WalkedKey, ById, ChildSum, Rows, DistinctIds, NoOpenAncestor;
    var f, g := CountedEntry(spans, splitKeys), ReferenceEntry(Closed(spans), splitKeys);
    var r := Counting(spans, spans);
    forall i | 0 <= i < |r| ensures f(r[i]) == g(r[i]) {
      RenderableIsRooted(Closed(spans), r[i]);
      SameWalk(spans, r[i], splitKeys);
    }
    assert Map(f, r) == Map(g, r);
  }

  lemma SameWalk(spans: seq<WireSpan>, s: WireSpan, splitKeys: set<string>)
    requires DistinctIds(spans) && Rooted(Closed(spans), s)
    ensures WalkedKey(ById(spans), s, splitKeys) == WalkedKey(ById(Closed(spans)), s, splitKeys)
  {
    hide DistinctIds, ById, ChainKey;
    var path :| Path(Closed(spans), path) && path[0] == s;
    forall t | t in Closed(spans) ensures t in spans { ClosedMembers(spans, t); }
    PathWidens(Closed(spans), spans, path);
    ClosedDistinct(spans);
    ClimbFollowsPath(spans, [s], path);
    ClimbFollowsPath(Closed(spans), [s], path);
  }

  lemma {:induction false} ClosedDistinct(spans: seq<WireSpan>)
    requires DistinctIds(spans)
    ensures DistinctIds(Closed(spans))
    decreases |spans|
  {
    if spans == [] {
    } else {
      var s, rest := spans[0], spans[1..];
      forall i, j | 0 <= i < j < |rest| ensures rest[i].id != rest[j].id {
        assert spans[i + 1].id != spans[j + 1].id;
      }
      ClosedDistinct(rest);
      forall t | t in Closed(rest) ensures t.id != s.id {
        ClosedMembers(rest, t);
        var j :| 0 <= j < |rest| && rest[j] == t;
        assert spans[0].id != spans[j + 1].id;
      }
    }
  }

  /** The aggregator shows what the reference computes from all arrivals, open ones included, exactly
      when no closed span hangs under an open one and no chain of closed spans exceeds 65. */
  lemma OpenSpansMatterIff(budget: nat, arrivals: seq<WireSpan>, splitKeys: set<string>)
    requires budget >= 1 && DistinctIds(arrivals) && Fits(budget, Closed(arrivals))
    ensures AggregatorRows(Run(budget, arrivals), splitKeys) == CountedRows(arrivals, splitKeys)
            <==> NoOpenAncestor(arrivals) && ShortChains(Closed(arrivals))
  {
    hide Rooted, Counting, Renderable, Rows, Fits, ShortChains, DistinctIds, UniqueIds, NoOpenAncestor;
    ClosedDistinct(arrivals);
    DistinctMeansUnique(Closed(arrivals));
    RunMatchesReference(budget, arrivals, splitKeys);
    CountingIsMore(arrivals, arrivals);
    AgreeIff(arrivals);
    if NoOpenAncestor(arrivals) {
      SameRows(arrivals, splitKeys);
    } else {
      var c := Run(budget, arrivals);
      RunCount(budget, arrivals);
      if AggregatorRows(c, splitKeys) == CountedRows(arrivals, splitKeys) {
        KeyMapDomain(c.log, splitKeys);
        RowsCountEntries(Entries(Ring(c), KeyMap(c.log, splitKeys)),
                         Map(CountedEntry(arrivals, splitKeys), Counting(arrivals, arrivals)));
      }
    }
  }

  lemma AgreeIff(spans: seq<WireSpan>)
    requires DistinctIds(spans)
    ensures NoOpenAncestor(spans) <==> Agree(spans, spans)
  {
    if NoOpenAncestor(spans) {
      forall s | s in spans && s.closedAt.Some? && Rooted(spans, s) ensures Rooted(Closed(spans), s) {
        var path :| Path(spans, path) && path[0] == s;
        RootedAmongClosedIff(spans, path);
      }
    } else {
      var path: seq<WireSpan> :| Path(spans, path) && path[0].closedAt.Some? && !AllClosed(path);
      RootedAmongClosedIff(spans, path);
      assert Rooted(spans, path[0]) && path[0] in spans;
    }
  }

  lemma RunCount(budget: nat, arrivals: seq<WireSpan>)
    requires budget >= 1 && UniqueIds(multiset(Closed(arrivals))) && Fits(budget, Closed(arrivals))
    ensures |Ring(Run(budget, arrivals))| == |Renderable(Closed(arrivals), Closed(arrivals))|
    ensures IdSet(Ring(Run(budget, arrivals))) <= IdSet(Run(budget, arrivals).log)
  {
    hide UniqueIds, Renderable, Fits, Inv, Everything;
    var spans, c := Closed(arrivals), Run(budget, arrivals);
    ClosedIsClosed(arrivals);
    Reached(budget, spans);
    IntactIffFits(budget, spans);
    assert Ring(c) == c.log;
    RingBag(c, spans);
    assert |c.log| == |multiset(c.log)|;
    assert |Renderable(spans, spans)| == |multiset(Renderable(spans, spans))|;
  }
}
