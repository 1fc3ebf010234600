/** The whole-buffer bucketing as it is written: memoised renderability, child sums, a capped walk
    up each chain, and running statistics per key. */
module ReferenceBuckets {
  import opened Spans
  import opened Splits
  import opened Buckets
  import opened Ledger
  import opened Forest
  import opened Survival
  import opened Chains
  import opened Bags
  import opened Reference
  import opened Ordering
  import opened SortedRows

  /** A rank that falls from every span to its parent: the buffer has no parent cycle, on which
      the recursion below would not end. */
  ghost predicate Ranked(buffer: seq<WireSpan>, rank: map<nat, nat>) {
    forall s, t :: s in buffer && t in buffer && s.parent == Some(t.id) ==>
      s.id in rank && t.id in rank && rank[t.id] < rank[s.id]
  }

  ghost predicate IsHit(buffer: seq<WireSpan>, byId: map<nat, WireSpan>, id: nat) {
    id in byId && Rooted(buffer, byId[id])
  }

  ghost predicate Remembers(memo: map<nat, bool>, buffer: seq<WireSpan>, byId: map<nat, WireSpan>) {
    forall id :: id in memo ==> memo[id] == IsHit(buffer, byId, id)
  }

  lemma RootedStep(buffer: seq<WireSpan>, s: WireSpan, p: WireSpan)
    requires DistinctIds(buffer) && s in buffer && p in buffer && s.parent == Some(p.id)
    ensures Rooted(buffer, s) <==> Rooted(buffer, p)
  {
    if Rooted(buffer, p) {
      var path :| Path(buffer, path) && path[0] == p;
      assert ([s] + path)[1..] == path;
      assert Path(buffer, [s] + path);
    }
    if Rooted(buffer, s) {
      var path :| Path(buffer, path) && path[0] == s;
      assert |path| > 1 && Path(buffer, path[1..]);
      var q := path[1];
      var i :| 0 <= i < |buffer| && buffer[i] == p;
      assert q in buffer && path[1..][0] == q;
      var j :| 0 <= j < |buffer| && buffer[j] == q;
      assert buffer[i].id == buffer[j].id;
    }
  }

  lemma RootedEnds(buffer: seq<WireSpan>, s: WireSpan)
    requires s in buffer
    ensures s.parent.None? ==> Rooted(buffer, s)
    ensures s.parent.Some? && s.parent.value !in IdSet(buffer) ==> !Rooted(buffer, s)
  {
    if s.parent.None? {
      assert Path(buffer, [s]);
    } else if Rooted(buffer, s) {
      var path :| Path(buffer, path) && path[0] == s;
      assert |path| > 1 && Path(buffer, path[1..]);
      assert path[1..][0] in buffer;
    }
  }

  method IsRenderable(id: nat, byId: map<nat, WireSpan>, memo: map<nat, bool>, ghost buffer: seq<WireSpan>,
                      ghost rank: map<nat, nat>)
    returns (hit: bool, memo': map<nat, bool>)
    requires DistinctIds(buffer) && Ranked(buffer, rank) && byId == ById(buffer) && Remembers(memo, buffer, byId)
    ensures hit == IsHit(buffer, byId, id) && Remembers(memo', buffer, byId)
    ensures memo.Keys + {id} <= memo'.Keys
    decreases if id in rank then rank[id] else 0
  {
    hide Rooted;
    ByIdFinds(buffer);
    if id in memo {
      return memo[id], memo;
    }
    memo' := memo;
    if id !in byId {
      hit := false;
    } else {
      var s := byId[id];
      assert s in buffer && s.id == id by { assert id in IdSet(buffer); }
      RootedEnds(buffer, s);
      if s.parent.None? {
        hit := true;
      } else if s.parent.value !in byId {
        hit := false;
      } else {
        assert s.parent.value in IdSet(buffer);
        RootedStep(buffer, s, byId[s.parent.value]);
        hit, memo' := IsRenderable(s.parent.value, byId, memo, buffer, rank);
      }
    }
    memo' := memo'[id := hit];
  }

  lemma {:induction false} RenderableSnoc(spans: seq<WireSpan>, s: WireSpan, buffer: seq<WireSpan>)
    ensures Renderable(spans + [s], buffer) == Renderable(spans, buffer) + if Rooted(buffer, s) then [s] else []
  {
    if spans == [] {
      assert [s][1..] == [] && [] + [s] == [s];
    } else {
      assert (spans + [s])[1..] == spans[1..] + [s];
      RenderableSnoc(spans[1..], s, buffer);
    }
  }

  /** The spans that count: closed, with their whole parent chain in the buffer. */
  ghost function Counting(spans: seq<WireSpan>, buffer: seq<WireSpan>): seq<WireSpan> {
    Forest.Closed(Renderable(spans, buffer))
  }

  lemma CountingSnoc(spans: seq<WireSpan>, s: WireSpan, buffer: seq<WireSpan>)
    ensures Counting(spans + [s], buffer)
            == Counting(spans, buffer) + if Rooted(buffer, s) && s.closedAt.Some? then [s] else []
  {
    hide Rooted;
    RenderableSnoc(spans, s, buffer);
    ClosedConcat(Renderable(spans, buffer), [s]);
    assert [s][1..] == [];
    assert Renderable(spans, buffer) + [] == Renderable(spans, buffer);
    assert Counting(spans, buffer) + [] == Counting(spans, buffer);
  }

  // ── The walk up one chain ──

  function Reversed(s: seq<string>): seq<string> {
    if s == [] then [] else Reversed(s[1..]) + [s[0]]
  }

  lemma {:induction false} ReversedSnoc(s: seq<string>, x: string)
    ensures Reversed(s + [x]) == [x] + Reversed(s)
  {
    if s == [] {
      assert [x][1..] == [];
    } else {
      assert (s + [x])[1..] == s[1..] + [x];
      ReversedSnoc(s[1..], x);
    }
  }

  lemma {:induction false} NamesSnoc(chain: seq<WireSpan>, s: WireSpan)
    ensures NamesFromRoot(chain + [s]) == [s.name] + NamesFromRoot(chain)
  {
    if chain == [] {
      assert [s][1..] == [];
    } else {
      assert (chain + [s])[1..] == chain[1..] + [s];
      NamesSnoc(chain[1..], s);
    }
  }

  method WalkKey(s: WireSpan, byId: map<nat, WireSpan>, keys: set<string>) returns (key: BucketKey)
    ensures key == WalkedKey(byId, s, keys)
  {
    var stack := [s.name];
    var acc := TakeFields(s.fields, keys, []);
    var p := s.parent;
    ghost var got := [s];
    OverlaySnoc([], s, keys);
    ReversedSnoc([], s.name);
    NamesSnoc([], s);
    assert [] + [s] == [s] && [] + [s.name] == [s.name];
    assert FieldMap(s.fields, keys) + Overlay([], keys) == FieldMap(s.fields, keys) + AsMap([]);
    while p.Some? && |stack| <= 64 && p.value in byId
      invariant |stack| == |got| <= 65
      invariant Reversed(stack) == NamesFromRoot(got) && Distinct(acc) && AsMap(acc) == Overlay(got, keys)
      invariant Climb(byId, s.parent, [s]) == Climb(byId, p, got)
      decreases 65 - |stack|
    {
      var parent := byId[p.value];
      OverlaySnoc(got, parent, keys);
      NamesSnoc(got, parent);
      ReversedSnoc(stack, parent.name);
      stack := stack + [parent.name];
      acc := TakeFields(parent.fields, keys, acc);
      got := got + [parent];
      p := parent.parent;
    }
    var splits := SortByKey(acc);
    CanonUnique(splits);
    key := BucketKey(Reversed(stack), splits);
  }

  // ── Running statistics ──

  lemma RowsSnoc(es: seq<Entry>, e: Entry)
    ensures var was := if e.bucket in Rows(es) then Rows(es)[e.bucket] else NO_STATS;
            Rows(es + [e]) == Rows(es)[e.bucket := Accumulate(was, e.total, e.selfNs)]
  {
    hide Accumulate;
    var more := es + [e];
    forall k ensures k in Keys(more) <==> k in Keys(es) || k == e.bucket {}
    forall k | k in Keys(more)
      ensures Fold(Contribs(more, k)) ==
              if k == e.bucket then Accumulate(Fold(Contribs(es, k)), e.total, e.selfNs) else Fold(Contribs(es, k))
    {
      ContribsConcat(es, [e], k);
      ContribsOne(e, k);
      if k == e.bucket {
        assert (Contribs(es, k) + [(e.total, e.selfNs)])[..|Contribs(es, k)|] == Contribs(es, k);
      } else {
        assert Contribs(es, k) + [] == Contribs(es, k);
      }
    }
    KeyHasContribs(es, e.bucket);
  }

  ghost function CountedEntry(buffer: seq<WireSpan>, splitKeys: set<string>): WireSpan -> Entry {
    s => Entry(s, WalkedKey(ById(buffer), s, splitKeys), Total(s),
               SatSub(Total(s), ChildSum(Counting(buffer, buffer), s.id)))
  }

  ghost function CountedRows(buffer: seq<WireSpan>, splitKeys: set<string>): map<BucketKey, StackStats> {
    Rows(Map(CountedEntry(buffer, splitKeys), Counting(buffer, buffer)))
  }

  method MarkRenderable(buffer: seq<WireSpan>, byId: map<nat, WireSpan>, ghost rank: map<nat, nat>)
    returns (memo: map<nat, bool>)
    requires DistinctIds(buffer) && Ranked(buffer, rank) && byId == ById(buffer)
    ensures forall s :: s in buffer ==> s.id in memo && memo[s.id] == Rooted(buffer, s)
  {
    hide Rooted;
    memo := map[];
    for i := 0 to |buffer|
      invariant Remembers(memo, buffer, byId) && forall j :: 0 <= j < i ==> buffer[j].id in memo
    {
      var hit;
      hit, memo := IsRenderable(buffer[i].id, byId, memo, buffer, rank);
    }
    ByIdFinds(buffer);
  }

  method SumChildren(buffer: seq<WireSpan>, renderable: map<nat, bool>) returns (sums: map<nat, nat>)
    requires forall s :: s in buffer ==> s.id in renderable && renderable[s.id] == Rooted(buffer, s)
    ensures forall id :: At(sums, id) == ChildSum(Counting(buffer, buffer), id)
  {
    hide Rooted, Counting;
    sums := map[];
    assert Counting(buffer[..0], buffer) == [] by { CountingNone(buffer); }
    for i := 0 to |buffer|
      invariant forall id :: At(sums, id) == ChildSum(Counting(buffer[..i], buffer), id)
    {
      var s := buffer[i];
      assert buffer[..i + 1] == buffer[..i] + [s];
      CountingSnoc(buffer[..i], s, buffer);
      forall id ensures ChildSum(Counting(buffer[..i], buffer) + [s], id)
                     == ChildSum(Counting(buffer[..i], buffer), id) + Share(s, id) {
        ChildSumSnoc(Counting(buffer[..i], buffer), s, id);
      }
      assert Counting(buffer[..i], buffer) + [] == Counting(buffer[..i], buffer);
      if renderable[s.id] && s.closedAt.Some? && s.parent.Some? {
        sums := sums[s.parent.value := At(sums, s.parent.value) + SatSub(s.closedAt.value, s.openedAt)];
      }
    }
    assert buffer[..|buffer|] == buffer;
  }

  lemma CountingNone(buffer: seq<WireSpan>)
    ensures Counting(buffer[..0], buffer) == []
  {
  }

  lemma MapSnoc<A, B>(f: A -> B, s: seq<A>, x: A)
    ensures Map(f, s + [x]) == Map(f, s) + [f(x)]
  {
  }

  /** Splits first, stack second. */
  predicate SplitsFirst(a: BucketKey, b: BucketKey) {
    if a.splits == b.splits then Lex(StringLe, a.stack, b.stack) else Lex(PairLe, a.splits, b.splits)
  }

  lemma SplitsFirstOrder()
    ensures TotalOrder(SplitsFirst)
  {
    StringOrder();
    PairOrder();
    forall a, b, c
      ensures SplitsFirst(a, a) && (SplitsFirst(a, b) || SplitsFirst(b, a))
      ensures SplitsFirst(a, b) && SplitsFirst(b, a) ==> a == b
      ensures SplitsFirst(a, b) && SplitsFirst(b, c) ==> SplitsFirst(a, c)
    {
      LexTotal(PairLe, a.splits, b.splits);
      LexTotal(PairLe, b.splits, c.splits);
      LexTotal(StringLe, a.stack, b.stack);
      if Lex(PairLe, a.splits, b.splits) && Lex(PairLe, b.splits, c.splits) {
        LexTransitive(PairLe, a.splits, b.splits, c.splits);
      }
      if Lex(StringLe, a.stack, b.stack) && Lex(StringLe, b.stack, c.stack) {
        LexTransitive(StringLe, a.stack, b.stack, c.stack);
      }
    }
  }

  /** The reference on any buffer of distinct ids without a parent cycle. */
  method ReferenceBucketByStack(buffer: seq<WireSpan>, splitKeys: set<string>, ghost rank: map<nat, nat>)
    returns (rows: seq<Row>)
    requires DistinctIds(buffer) && Ranked(buffer, rank)
    ensures SortedBy(SplitsFirst, rows) && Lists(rows, CountedRows(buffer, splitKeys))
    ensures AllClosed(buffer) ==> Lists(rows, ReferenceRows(buffer, splitKeys))
  {
    hide Rooted, Counting, WalkedKey, ById, ChildSum, Rows, Renderable, DistinctIds, Ranked, SplitsFirst, Lists;
    var table := BucketAll(buffer, splitKeys, rank);
    SplitsFirstOrder();
    rows := SortTable(SplitsFirst, table);
  }

  method BucketAll(buffer: seq<WireSpan>, splitKeys: set<string>, ghost rank: map<nat, nat>)
    returns (rows: map<BucketKey, StackStats>)
    requires DistinctIds(buffer) && Ranked(buffer, rank)
    ensures rows == CountedRows(buffer, splitKeys)
    ensures AllClosed(buffer) ==> rows == ReferenceRows(buffer, splitKeys)
  {
    hide Rooted, Counting, WalkedKey, ById, ChildSum, Rows, Renderable, DistinctIds, Ranked, Accumulate;
    var byId := ById(buffer);
    var renderable := MarkRenderable(buffer, byId, rank);
    var sums := SumChildren(buffer, renderable);
    ghost var f := CountedEntry(buffer, splitKeys);
    rows := map[];
    CountingNone(buffer);
    RowsNone(f);
    for i := 0 to |buffer|
      invariant rows == Rows(Map(f, Counting(buffer[..i], buffer)))
    {
      var s := buffer[i];
      assert buffer[..i + 1] == buffer[..i] + [s] && s in buffer;
      CountingSnoc(buffer[..i], s, buffer);
      assert Counting(buffer[..i], buffer) + [] == Counting(buffer[..i], buffer);
      if renderable[s.id] && s.closedAt.Some? {
        var total := SatSub(s.closedAt.value, s.openedAt);
        var self := SatSub(total, At(sums, s.id));
        var key := WalkKey(s, byId, splitKeys);
        MapSnoc(f, Counting(buffer[..i], buffer), s);
        RowsSnoc(Map(f, Counting(buffer[..i], buffer)), f(s));
        rows := rows[key := Accumulate(if key in rows then rows[key] else NO_STATS, total, self)];
      }
    }
    assert buffer[..|buffer|] == buffer;
    if AllClosed(buffer) {
      ClosedCounts(buffer, splitKeys);
    }
  }

  lemma RowsNone(f: WireSpan -> Entry)
    ensures Rows(Map(f, [])) == map[]
  {
  }

  lemma {:induction false} ClosedIsAll(spans: seq<WireSpan>, buffer: seq<WireSpan>)
    requires AllClosed(spans)
    ensures Counting(spans, buffer) == Renderable(spans, buffer)
  {
    hide Rooted;
    if spans == [] {
    } else {
      forall s | s in spans[1..] ensures s in spans {}
      ClosedIsAll(spans[1..], buffer);
      assert spans[0] in spans;
      ClosedConcat(if Rooted(buffer, spans[0]) then [spans[0]] else [], Renderable(spans[1..], buffer));
      assert [spans[0]][1..] == [];
    }
  }

  lemma ClosedCounts(buffer: seq<WireSpan>, splitKeys: set<string>)
    requires AllClosed(buffer)
    ensures CountedRows(buffer, splitKeys) == ReferenceRows(buffer, splitKeys)
  {
    hide Counting, Rows, Renderable, WalkedKey, ById, ChildSum;
    ClosedIsAll(buffer, buffer);
    var f, g, s := CountedEntry(buffer, splitKeys), ReferenceEntry(buffer, splitKeys), Counting(buffer, buffer);
    assert Map(f, s) == Map(g, s);
  }

  /** The reference's list ascends by splits, pair by pair, then by stack. */
  lemma ReferenceAscends(rows: seq<Row>, i: nat, j: nat)
    requires SortedBy(SplitsFirst, rows) && i < j < |rows|
    ensures rows[i].key.splits == rows[j].key.splits ==> Ascends(rows[i].key.stack, rows[j].key.stack)
    ensures rows[i].key.splits != rows[j].key.splits ==>
      var p, q := rows[i].key.splits, rows[j].key.splits;
      p < q || exists n :: 0 <= n < |p| && n < |q| && p[..n] == q[..n] && p[n] != q[n]
                 && if p[n].0 == q[n].0 then StringLe(p[n].1, q[n].1) else StringLe(p[n].0, q[n].0)
  {
    hide StringLe, Ascends;
    var a, b := rows[i].key, rows[j].key;
    assert SplitsFirst(a, b) && a != b;
    if a.splits == b.splits {
      StacksAscend(a.stack, b.stack);
    } else {
      LexIs(PairLe, a.splits, b.splits);
    }
  }
}
