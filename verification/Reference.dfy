/** The whole-buffer bucketing the incremental aggregator must reproduce, and when it does. */
module Reference {
  import opened Spans
  import opened Buckets
  import opened Ledger
  import opened Forest
  import opened Survival
  import opened Chains
  import opened Bags

  // ── The reference ──

  const NO_STATS := StackStats(0, 0, 0, 0, 0, 0, 0)

  /** One contribution folded into running statistics. */
  function Accumulate(st: StackStats, total: nat, self: nat): StackStats {
    if st.count == 0 then StackStats(1, total, total, st.totalSum + total, self, self, st.selfSum + self)
    else StackStats(
      st.count + 1,
      if total < st.totalMin then total else st.totalMin, if total > st.totalMax then total else st.totalMax,
      st.totalSum + total,
      if self < st.selfMin then self else st.selfMin, if self > st.selfMax then self else st.selfMax,
      st.selfSum + self)
  }

  ghost function Fold(c: seq<Contribution>): StackStats {
    if c == [] then NO_STATS
    else Accumulate(Fold(c[..|c| - 1]), c[|c| - 1].0, c[|c| - 1].1)
  }

  ghost function Keys(es: seq<Entry>): set<BucketKey> {
    set e | e in es :: e.bucket
  }

  ghost function Rows(es: seq<Entry>): map<BucketKey, StackStats> {
    map k | k in Keys(es) :: Fold(Contribs(es, k))
  }

  /** The spans whose full parent chain is in the buffer. */
  ghost function Renderable(spans: seq<WireSpan>, buffer: seq<WireSpan>): seq<WireSpan> {
    if spans == [] then []
    else (if Rooted(buffer, spans[0]) then [spans[0]] else []) + Renderable(spans[1..], buffer)
  }

  ghost function ReferenceEntry(buffer: seq<WireSpan>, splitKeys: set<string>): WireSpan -> Entry {
    s => Entry(s, WalkedKey(ById(buffer), s, splitKeys), Total(s),
               SatSub(Total(s), ChildSum(Renderable(buffer, buffer), s.id)))
  }

  /** `reference_bucket_by_stack` on a buffer of closed spans, as a map from key to statistics. */
  ghost function ReferenceRows(buffer: seq<WireSpan>, splitKeys: set<string>): map<BucketKey, StackStats> {
    Rows(Map(ReferenceEntry(buffer, splitKeys), Renderable(buffer, buffer)))
  }

  // ── Statistics do not depend on order ──

  lemma AccumulateSummarises(st: StackStats, c: seq<Contribution>, x: Contribution)
    requires if c == [] then st == NO_STATS else Summarises(st, c)
    ensures Summarises(Accumulate(st, x.0, x.1), c + [x])
  {
    assert c + [x] + [] == c + [x] && c + [] == c;
    Projections(c, x, []);
    SumInsert(Totals(c), x.0, []);
    SumInsert(Selfs(c), x.1, []);
    MembersSnoc(Totals(c), x.0);
    MembersSnoc(Selfs(c), x.1);
  }

  lemma MembersSnoc(s: seq<nat>, x: nat)
    ensures Members(s + [x]) == Members(s) + {x} && s + [x] + [] == s + [x] && s + [] == s
    ensures s == [] ==> Members(s) == {}
  {
  }

  lemma {:induction false} FoldSummarises(c: seq<Contribution>)
    ensures c == [] ==> Fold(c) == NO_STATS
    ensures c != [] ==> Summarises(Fold(c), c)
  {
    if c == [] {
    } else {
      FoldSummarises(c[..|c| - 1]);
      AccumulateSummarises(Fold(c[..|c| - 1]), c[..|c| - 1], c[|c| - 1]);
      assert c == c[..|c| - 1] + [c[|c| - 1]];
    }
  }

  lemma SummaryBag(s: StackStats, a: seq<Contribution>, t: StackStats, b: seq<Contribution>)
    requires Summarises(s, a) && Summarises(t, b) && multiset(a) == multiset(b)
    ensures s == t
  {
    ProjectionBags(a, b);
    SumBag(Totals(a), Totals(b));
    SumBag(Selfs(a), Selfs(b));
    assert |a| == |multiset(a)| == |b|;
    assert Members(Totals(a)) == Members(Totals(b)) by {
      forall x ensures x in Totals(a) <==> x in Totals(b) {
        assert x in multiset(Totals(a)) <==> x in multiset(Totals(b));
      }
    }
    assert Members(Selfs(a)) == Members(Selfs(b)) by {
      forall x ensures x in Selfs(a) <==> x in Selfs(b) {
        assert x in multiset(Selfs(a)) <==> x in multiset(Selfs(b));
      }
    }
  }

  lemma {:induction false} KeyHasContribs(es: seq<Entry>, k: BucketKey)
    ensures k in Keys(es) <==> Contribs(es, k) != []
  {
    if es == [] {
    } else {
      KeyHasContribs(es[1..], k);
      assert Keys(es) == {es[0].bucket} + Keys(es[1..]);
    }
  }

  lemma RowsBag(a: seq<Entry>, b: seq<Entry>)
    requires multiset(a) == multiset(b)
    ensures Rows(a) == Rows(b)
  {
    forall k ensures (k in Keys(a) <==> k in Keys(b)) && Fold(Contribs(a, k)) == Fold(Contribs(b, k)) {
      ContribsBag(a, b, k);
      KeyHasContribs(a, k);
      KeyHasContribs(b, k);
      var ca, cb := Contribs(a, k), Contribs(b, k);
      assert |ca| == |multiset(ca)| == |cb|;
      FoldSummarises(ca);
      FoldSummarises(cb);
      if ca != [] {
        SummaryBag(Fold(ca), ca, Fold(cb), cb);
      }
    }
  }

  /** The incremental buckets, read out, are the folded rows of the ring's entries. */
  lemma BucketsShowRows(books: Books, es: seq<Entry>)
    requires Exact(books, es)
    ensures (map k | k in books :: books[k].ToStackStats()) == Rows(es)
  {
    forall k ensures k in books <==> k in Keys(es) {
      assert ExactAt(books, es, k);
      KeyHasContribs(es, k);
    }
    forall k | k in books ensures books[k].ToStackStats() == Fold(Contribs(es, k)) {
      assert ExactAt(books, es, k);
      var c := Contribs(es, k);
      StatsAreExact(books[k], c);
      FoldSummarises(c);
      SummaryBag(books[k].ToStackStats(), c, Fold(c), c);
    }
  }

  ghost function BucketOf(): Entry -> BucketKey {
    (e: Entry) => e.bucket
  }

  lemma {:induction false} ContribsCount(es: seq<Entry>, k: BucketKey)
    ensures |Contribs(es, k)| == multiset(Map(BucketOf(), es))[k]
  {
    if es == [] {
    } else {
      ContribsCount(es[1..], k);
      assert Map(BucketOf(), es) == [es[0].bucket] + Map(BucketOf(), es[1..]);
    }
  }

  lemma RowCount(es: seq<Entry>, k: BucketKey)
    ensures |Contribs(es, k)| == if k in Rows(es) then Rows(es)[k].count else 0
  {
    KeyHasContribs(es, k);
    if Contribs(es, k) != [] {
      FoldSummarises(Contribs(es, k));
    }
  }

  /** Equal rows count equally many entries. */
  lemma RowsCountEntries(a: seq<Entry>, b: seq<Entry>)
    requires Rows(a) == Rows(b)
    ensures |a| == |b|
  {
    hide Rows, Contribs;
    var f, g := Map(BucketOf(), a), Map(BucketOf(), b);
    forall k ensures multiset(f)[k] == multiset(g)[k] {
      ContribsCount(a, k);
      ContribsCount(b, k);
      RowCount(a, k);
      RowCount(b, k);
    }
    assert multiset(f) == multiset(g);
    assert |f| == |multiset(f)| && |g| == |multiset(g)|;
  }

  // ── What a row says ──

  /** The entries of one bucket, in order. */
  ghost function OfBucket(es: seq<Entry>, k: BucketKey): seq<Entry> {
    if es == [] then []
    else (if es[0].bucket == k then [es[0]] else []) + OfBucket(es[1..], k)
  }

  lemma {:induction false} OfBucketIs(es: seq<Entry>, k: BucketKey, e: Entry)
    ensures multiset(OfBucket(es, k))[e] == if e.bucket == k then multiset(es)[e] else 0
  {
    if es == [] {
    } else {
      OfBucketIs(es[1..], k, e);
      assert es == [es[0]] + es[1..];
    }
  }

  lemma {:induction false} ContribsAreOfBucket(es: seq<Entry>, k: BucketKey)
    ensures |Contribs(es, k)| == |OfBucket(es, k)|
    ensures forall i :: 0 <= i < |OfBucket(es, k)| ==>
              Contribs(es, k)[i] == (OfBucket(es, k)[i].total, OfBucket(es, k)[i].selfNs)
  {
    if es == [] {
    } else {
      ContribsAreOfBucket(es[1..], k);
    }
  }

  /** A row counts its bucket's entries, adds up their times, and names times that occur and bound
      all the others. */
  lemma RowSays(es: seq<Entry>, k: BucketKey)
    requires k in Rows(es)
    ensures var row, mine := Rows(es)[k], OfBucket(es, k);
            && row.count == |mine| > 0
            && row.totalSum == Sum(seq(|mine|, i requires 0 <= i < |mine| => mine[i].total))
            && row.selfSum == Sum(seq(|mine|, i requires 0 <= i < |mine| => mine[i].selfNs))
            && (forall i :: 0 <= i < |mine| ==> row.totalMin <= mine[i].total <= row.totalMax)
            && (forall i :: 0 <= i < |mine| ==> row.selfMin <= mine[i].selfNs <= row.selfMax)
            && (exists i :: 0 <= i < |mine| && mine[i].total == row.totalMin)
            && (exists i :: 0 <= i < |mine| && mine[i].total == row.totalMax)
            && (exists i :: 0 <= i < |mine| && mine[i].selfNs == row.selfMin)
            && (exists i :: 0 <= i < |mine| && mine[i].selfNs == row.selfMax)
  {
    hide Contribs, OfBucket, Fold, Sum;
    var row, mine, c := Rows(es)[k], OfBucket(es, k), Contribs(es, k);
    KeyHasContribs(es, k);
    FoldSummarises(c);
    ContribsAreOfBucket(es, k);
    assert Totals(c) == seq(|mine|, i requires 0 <= i < |mine| => mine[i].total);
    assert Selfs(c) == seq(|mine|, i requires 0 <= i < |mine| => mine[i].selfNs);
    BoundsAre(Totals(c), row.totalMin, row.totalMax);
    BoundsAre(Selfs(c), row.selfMin, row.selfMax);
    assert forall i :: 0 <= i < |mine| ==> mine[i].total == Totals(c)[i] && mine[i].selfNs == Selfs(c)[i];
  }

  lemma BoundsAre(times: seq<nat>, lo: nat, hi: nat)
    requires IsLeast(lo, Members(times)) && IsGreatest(hi, Members(times))
    ensures forall i :: 0 <= i < |times| ==> lo <= times[i] <= hi
    ensures exists i :: 0 <= i < |times| && times[i] == lo
    ensures exists i :: 0 <= i < |times| && times[i] == hi
  {
    forall i | 0 <= i < |times| ensures times[i] in Members(times) {}
  }

  // ── What the ring holds when nothing was evicted or lost ──

  /** A run that never evicted and never overflowed the pool. */
  ghost predicate Intact(c: Core) {
    Inv(c, []) && c.start == 0 && c.lost == multiset{}
  }

  lemma {:induction false} PoolMember(m: Pool, s: WireSpan)
    requires s in PoolSpans(m)
    ensures exists k :: k in m && s in m[k]
    decreases |m|
  {
    var k := Least(m.Keys);
    if s !in m[k] {
      PoolMember(m - {k}, s);
      var l :| l in m - {k} && s in (m - {k})[l];
      assert l in m && s in m[l];
    }
  }

  lemma ParkedIsUnresolvable(c: Core, s: WireSpan)
    requires Inv(c, []) && s in PoolSpans(c.pending)
    ensures !Resolvable(c, s)
  {
    PoolMember(c.pending, s);
    var k :| k in c.pending && s in c.pending[k];
    assert WaitersFor(k, c.pending[k]);
  }

  lemma LogHasDistinctIds(c: Core)
    requires Inv(c, [])
    ensures DistinctIds(c.log)
  {
    forall i, j | 0 <= i < j < |c.log| ensures c.log[i].id != c.log[j].id {
      LogDistinct(c, [], i, j);
    }
  }

  lemma {:induction false} LoggedIsRooted(log: seq<WireSpan>, i: nat)
    requires ParentsFirst(log) && i < |log|
    ensures Rooted(log, log[i])
  {
    if log[i].parent.None? {
      assert Path(log, [log[i]]);
    } else {
      var p :| p in log[..i] && p.id == log[i].parent.value;
      var j :| 0 <= j < i && log[j] == p;
      LoggedIsRooted(log, j);
      var path :| Path(log, path) && path[0] == p;
      assert ([log[i]] + path)[1..] == path;
      assert Path(log, [log[i]] + path);
    }
  }

  /** Whatever has its chain among the arrivals is in the ring, and so is the chain. */
  lemma {:induction false} RootedIsLogged(c: Core, arrivals: seq<WireSpan>, path: seq<WireSpan>)
    requires Intact(c) && multiset(arrivals) == Everything(c) && Path(arrivals, path)
    ensures Path(c.log, path)
    decreases |path|
  {
    var s := path[0];
    assert s in multiset(arrivals);
    assert Ring(c) == c.log;
    if |path| > 1 {
      RootedIsLogged(c, arrivals, path[1..]);
      assert path[1] in c.log;
    }
    if s in PoolSpans(c.pending) {
      ParkedIsUnresolvable(c, s);
    }
  }

  /** The ring holds exactly the arrivals whose whole parent chain arrived. */
  lemma RingIsTheRenderable(c: Core, arrivals: seq<WireSpan>, s: WireSpan)
    requires Intact(c) && multiset(arrivals) == Everything(c)
    ensures s in c.log <==> Rooted(arrivals, s)
  {
    if s in c.log {
      var i :| 0 <= i < |c.log| && c.log[i] == s;
      LoggedIsRooted(c.log, i);
      var path :| Path(c.log, path) && path[0] == s;
      forall t | t in c.log ensures t in arrivals { assert t in multiset(arrivals); }
      PathWidens(c.log, arrivals, path);
    }
    if Rooted(arrivals, s) {
      var path :| Path(arrivals, path) && path[0] == s;
      RootedIsLogged(c, arrivals, path);
    }
  }

  lemma {:induction false} RenderableCount(spans: seq<WireSpan>, buffer: seq<WireSpan>, s: WireSpan)
    ensures multiset(Renderable(spans, buffer))[s] == if Rooted(buffer, s) then multiset(spans)[s] else 0
  {
    if spans == [] {
    } else {
      RenderableCount(spans[1..], buffer, s);
      assert spans == [spans[0]] + spans[1..];
    }
  }

  lemma RingBag(c: Core, arrivals: seq<WireSpan>)
    requires Intact(c) && multiset(arrivals) == Everything(c)
    ensures multiset(c.log) == multiset(Renderable(arrivals, arrivals))
  {
    var r := Renderable(arrivals, arrivals);
    forall s ensures multiset(c.log)[s] == multiset(r)[s] {
      RenderableCount(arrivals, arrivals, s);
      RingIsTheRenderable(c, arrivals, s);
      var bag := Everything(c) + multiset([]);
      assert UniqueIds(bag) && (s in bag ==> bag[s] == 1);
      assert bag[s] == multiset(arrivals)[s];
      assert s in c.log ==> s in multiset(c.log);
      if Rooted(arrivals, s) {
        assert s in multiset(c.log) && multiset(c.log)[s] >= 1;
      }
    }
  }

  // ── Parity ──

  ghost predicate ShortChains(spans: seq<WireSpan>) {
    forall path :: Path(spans, path) ==> |path| <= WALK_LIMIT
  }

  ghost function AggregatorRows(c: Core, splitKeys: set<string>): map<BucketKey, StackStats>
    requires c.start <= |c.log|
  {
    KeyMapDomain(c.log, splitKeys);
    assert IdSet(Ring(c)) <= IdSet(c.log);
    Rows(Entries(Ring(c), KeyMap(c.log, splitKeys)))
  }

  lemma {:induction false} ClimbIsBounded(byId: map<nat, WireSpan>, p: Option<nat>, got: seq<WireSpan>)
    requires |got| <= WALK_LIMIT
    ensures |Climb(byId, p, got)| <= WALK_LIMIT
    decreases WALK_LIMIT - |got|
  {
    if p.Some? && |got| < WALK_LIMIT && p.value in byId {
      ClimbIsBounded(byId, byId[p.value].parent, got + [byId[p.value]]);
    }
  }

  lemma UniqueMeansDistinct(spans: seq<WireSpan>)
    requires UniqueIds(multiset(spans))
    ensures DistinctIds(spans)
  {
    forall i, j | 0 <= i < j < |spans| ensures spans[i].id != spans[j].id {
      var s, t := spans[i], spans[j];
      Without(spans, j);
      assert s in spans[..j] + spans[j + 1..] by { assert (spans[..j] + spans[j + 1..])[i] == s; }
      assert s in multiset(spans) - multiset{t};
      assert s in multiset(spans) && t in multiset(spans) && (s == t ==> multiset(spans)[s] >= 2);
    }
  }

  lemma DistinctMeansUnique(spans: seq<WireSpan>)
    requires DistinctIds(spans)
    ensures UniqueIds(multiset(spans))
  {
    var bag := multiset(spans);
    forall s | s in bag ensures bag[s] == 1 {
      var i :| 0 <= i < |spans| && spans[i] == s;
      assert spans == spans[..i] + [s] + spans[i + 1..];
      assert bag == multiset(spans[..i]) + multiset{s} + multiset(spans[i + 1..]);
      assert s !in spans[..i] && s !in spans[i + 1..];
    }
    forall s, t | s in bag && t in bag && s.id == t.id ensures s == t {
      var i :| 0 <= i < |spans| && spans[i] == s;
      var j :| 0 <= j < |spans| && spans[j] == t;
    }
  }

  /** The whole parent chain of `s`, leaf first. */
  ghost function FullChain(buffer: seq<WireSpan>, s: WireSpan): (path: seq<WireSpan>)
    ensures Rooted(buffer, s) ==> Path(buffer, path) && path[0] == s
  {
    if Rooted(buffer, s) then
      var path :| Path(buffer, path) && path[0] == s;
      path
    else [s]
  }

  ghost function UncappedEntry(buffer: seq<WireSpan>, splitKeys: set<string>): WireSpan -> Entry {
    s => Entry(s, ChainKey(FullChain(buffer, s), splitKeys), Total(s),
               SatSub(Total(s), ChildSum(Renderable(buffer, buffer), s.id)))
  }

  /** The bucketing without the cap: every renderable span under the key of its whole chain. */
  ghost function UncappedRows(buffer: seq<WireSpan>, splitKeys: set<string>): map<BucketKey, StackStats> {
    Rows(Map(UncappedEntry(buffer, splitKeys), Renderable(buffer, buffer)))
  }

  lemma ArrivalsAreDistinct(c: Core, arrivals: seq<WireSpan>)
    requires Intact(c) && multiset(arrivals) == Everything(c)
    ensures DistinctIds(arrivals)
  {
    assert UniqueIds(Everything(c) + multiset([])) && Everything(c) + multiset([]) == multiset(arrivals);
    UniqueMeansDistinct(arrivals);
  }

  lemma SpanAgrees(c: Core, arrivals: seq<WireSpan>, splitKeys: set<string>, s: WireSpan)
    requires Intact(c) && multiset(arrivals) == Everything(c) && s in c.log
    ensures s.id in KeyMap(c.log, splitKeys)
    ensures KeyMap(c.log, splitKeys)[s.id] == ChainKey(FullChain(arrivals, s), splitKeys)
    ensures ChildSum(c.log, s.id) == ChildSum(Renderable(arrivals, arrivals), s.id)
  {
    RingIsTheRenderable(c, arrivals, s);
    var path := FullChain(arrivals, s);
    RootedIsLogged(c, arrivals, path);
    LogHasDistinctIds(c);
    InheritanceIsTheChain(c.log, path, splitKeys);
    RingBag(c, arrivals);
    ChildSumBag(c.log, Renderable(arrivals, arrivals), s.id);
  }

  lemma EntriesAgree(c: Core, arrivals: seq<WireSpan>, splitKeys: set<string>)
    requires Intact(c) && multiset(arrivals) == Everything(c)
    ensures IdSet(c.log) <= KeyMap(c.log, splitKeys).Keys
    ensures Entries(c.log, KeyMap(c.log, splitKeys)) == Map(UncappedEntry(arrivals, splitKeys), c.log)
  {
    hide Intact, Rooted, FullChain, ChainKey, Renderable, ChildSum, KeyMap;
    KeyMapDomain(c.log, splitKeys);
    var km := KeyMap(c.log, splitKeys);
    forall i | 0 <= i < |c.log|
      ensures Entries(c.log, km)[i] == UncappedEntry(arrivals, splitKeys)(c.log[i])
    {
      EntriesAt(c.log, km, i);
      SpanAgrees(c, arrivals, splitKeys, c.log[i]);
    }
  }

  /** Incremental equals whole-buffer without the cap, at any depth. */
  lemma RowsAreUncapped(c: Core, arrivals: seq<WireSpan>, splitKeys: set<string>)
    requires Intact(c) && multiset(arrivals) == Everything(c)
    ensures AggregatorRows(c, splitKeys) == UncappedRows(arrivals, splitKeys)
  {
    assert Ring(c) == c.log;
    EntriesAgree(c, arrivals, splitKeys);
    RingBag(c, arrivals);
    var f := UncappedEntry(arrivals, splitKeys);
    MapBag(f, c.log, Renderable(arrivals, arrivals));
    RowsBag(Map(f, c.log), Map(f, Renderable(arrivals, arrivals)));
  }

  lemma RenderableIsRooted(buffer: seq<WireSpan>, s: WireSpan)
    requires s in Renderable(buffer, buffer)
    ensures s in buffer && Rooted(buffer, s)
  {
    RenderableCount(buffer, buffer, s);
    assert s in multiset(Renderable(buffer, buffer));
    assert s in multiset(buffer);
  }

  lemma ShortWalkIsWhole(arrivals: seq<WireSpan>, splitKeys: set<string>, s: WireSpan)
    requires DistinctIds(arrivals) && ShortChains(arrivals) && Rooted(arrivals, s)
    ensures WalkedKey(ById(arrivals), s, splitKeys) == ChainKey(FullChain(arrivals, s), splitKeys)
  {
    hide Rooted, ChainKey, DistinctIds, ById;
    var path := FullChain(arrivals, s);
    ClimbFollowsPath(arrivals, [s], path);
    assert [s] + path[1..] == path;
  }

  /** On short chains the cap makes no difference. */
  lemma CapIsMoot(arrivals: seq<WireSpan>, splitKeys: set<string>)
    requires DistinctIds(arrivals) && ShortChains(arrivals)
    ensures ReferenceRows(arrivals, splitKeys) == UncappedRows(arrivals, splitKeys)
  {
    hide Rooted, DistinctIds, ShortChains, WalkedKey, ChainKey, FullChain, Renderable, ChildSum, Rows, ById;
    var f, g := ReferenceEntry(arrivals, splitKeys), UncappedEntry(arrivals, splitKeys);
    var r := Renderable(arrivals, arrivals);
    forall i | 0 <= i < |r| ensures f(r[i]) == g(r[i]) {
      RenderableIsRooted(arrivals, r[i]);
      ShortWalkIsWhole(arrivals, splitKeys, r[i]);
    }
    assert Map(f, r) == Map(g, r);
  }

  lemma ReferenceStacksAreShort(arrivals: seq<WireSpan>, splitKeys: set<string>, key: BucketKey)
    requires key in ReferenceRows(arrivals, splitKeys)
    ensures |key.stack| <= WALK_LIMIT
  {
    var f := ReferenceEntry(arrivals, splitKeys);
    var r := Renderable(arrivals, arrivals);
    var e: Entry :| e in Map(f, r) && e.bucket == key;
    var j :| 0 <= j < |r| && e == f(r[j]);
    ClimbIsBounded(ById(arrivals), e.span.parent, [e.span]);
  }

  lemma LoggedKeyHasRow(c: Core, splitKeys: set<string>, s: WireSpan)
    requires Intact(c) && s in c.log
    ensures s.id in KeyMap(c.log, splitKeys)
    ensures KeyMap(c.log, splitKeys)[s.id] in AggregatorRows(c, splitKeys)
  {
    KeyMapDomain(c.log, splitKeys);
    assert Ring(c) == c.log;
    var i :| 0 <= i < |c.log| && c.log[i] == s;
    var es := Entries(c.log, KeyMap(c.log, splitKeys));
    EntriesAt(c.log, KeyMap(c.log, splitKeys), i);
    assert es[i] in es;
  }

  /** The 65-span cap of the reference shows up as a row the aggregator has and it cannot. */
  lemma LongChainDiffers(c: Core, arrivals: seq<WireSpan>, splitKeys: set<string>, path: seq<WireSpan>)
    requires Intact(c) && multiset(arrivals) == Everything(c)
    requires Path(arrivals, path) && |path| > WALK_LIMIT
    ensures AggregatorRows(c, splitKeys) != ReferenceRows(arrivals, splitKeys)
  {
    hide AggregatorRows, ReferenceRows;
    RootedIsLogged(c, arrivals, path);
    LogHasDistinctIds(c);
    InheritanceIsTheChain(c.log, path, splitKeys);
    LoggedKeyHasRow(c, splitKeys, path[0]);
    var key := KeyMap(c.log, splitKeys)[path[0].id];
    if key in ReferenceRows(arrivals, splitKeys) {
      ReferenceStacksAreShort(arrivals, splitKeys, key);
    }
  }

  /** Incremental equals the capped reference exactly when no arrived chain is longer than 65 spans. */
  lemma ParityIffShortChains(c: Core, arrivals: seq<WireSpan>, splitKeys: set<string>)
    requires Intact(c) && multiset(arrivals) == Everything(c)
    ensures AggregatorRows(c, splitKeys) == ReferenceRows(arrivals, splitKeys) <==> ShortChains(arrivals)
  {
    if ShortChains(arrivals) {
      RowsAreUncapped(c, arrivals, splitKeys);
      ArrivalsAreDistinct(c, arrivals);
      CapIsMoot(arrivals, splitKeys);
    } else {
      var path :| Path(arrivals, path) && |path| > WALK_LIMIT;
      LongChainDiffers(c, arrivals, splitKeys, path);
    }
  }

  // ── Arrival order ──

  /** A logged span's entry as a function of the span alone. */
  ghost function EntryIn(c: Core, splitKeys: set<string>): WireSpan -> Entry {
    var km := KeyMap(c.log, splitKeys);
    (s: WireSpan) => if s.id in km then EntryFor(c.log, km, s) else Entry(s, BucketKey([], []), 0, 0)
  }

  lemma EntriesVia(c: Core, splitKeys: set<string>, f: WireSpan -> Entry)
    requires IdSet(c.log) <= KeyMap(c.log, splitKeys).Keys
    requires forall s :: s in c.log ==> f(s) == EntryIn(c, splitKeys)(s)
    ensures Entries(c.log, KeyMap(c.log, splitKeys)) == Map(f, c.log)
  {
    forall i | 0 <= i < |c.log| ensures Entries(c.log, KeyMap(c.log, splitKeys))[i] == f(c.log[i]) {
      EntriesAt(c.log, KeyMap(c.log, splitKeys), i);
      assert c.log[i] in c.log;
    }
  }

  /** Any two intact runs over the same spans show the same rows, at any depth. */
  lemma ArrivalOrderIsIrrelevant(c: Core, d: Core, splitKeys: set<string>)
    requires Intact(c) && Intact(d) && Everything(c) == Everything(d)
    ensures multiset(c.log) == multiset(d.log) && PoolSpans(c.pending) == PoolSpans(d.pending)
    ensures AggregatorRows(c, splitKeys) == AggregatorRows(d, splitKeys)
  {
    assert Ring(c) == c.log && Ring(d) == d.log;
    SameRing(c, d);
    KeyMapDomain(c.log, splitKeys);
    KeyMapDomain(d.log, splitKeys);
    hide Intact, Inv, Entries;
    var f := EntryIn(c, splitKeys);
    EntriesVia(c, splitKeys, f);
    forall s | s in d.log ensures f(s) == EntryIn(d, splitKeys)(s) {
      SameKey(c, d, splitKeys, s);
    }
    EntriesVia(d, splitKeys, f);
    MapBag(f, c.log, d.log);
    RowsBag(Map(f, c.log), Map(f, d.log));
  }

  /** Some order of a bag of spans. */
  ghost function Listing(bag: multiset<WireSpan>): (spans: seq<WireSpan>)
    ensures multiset(spans) == bag
    decreases |bag|
  {
    if bag == multiset{} then []
    else
      var s :| s in bag;
      Listing(bag - multiset{s}) + [s]
  }

  lemma SameRing(c: Core, d: Core)
    requires Intact(c) && Intact(d) && Everything(c) == Everything(d)
    ensures multiset(c.log) == multiset(d.log) && PoolSpans(c.pending) == PoolSpans(d.pending)
  {
    hide Inv, PoolSpans, Renderable;
    var spans := Listing(Everything(c));
    RingBag(c, spans);
    RingBag(d, spans);
    assert PoolSpans(c.pending) == Everything(c) - multiset(c.log);
    assert PoolSpans(d.pending) == Everything(d) - multiset(d.log);
  }

  lemma SameKey(c: Core, d: Core, splitKeys: set<string>, s: WireSpan)
    requires Intact(c) && Intact(d) && Everything(c) == Everything(d) && s in d.log
    ensures s.id in KeyMap(c.log, splitKeys) && s.id in KeyMap(d.log, splitKeys)
    ensures KeyMap(c.log, splitKeys)[s.id] == KeyMap(d.log, splitKeys)[s.id]
    ensures ChildSum(c.log, s.id) == ChildSum(d.log, s.id)
  {
    SameRing(c, d);
    LogHasDistinctIds(c);
    LogHasDistinctIds(d);
    var i :| 0 <= i < |d.log| && d.log[i] == s;
    LoggedIsRooted(d.log, i);
    var path :| Path(d.log, path) && path[0] == s;
    forall t | t in d.log ensures t in c.log { assert t in multiset(c.log); }
    PathWidens(d.log, c.log, path);
    InheritanceIsTheChain(c.log, path, splitKeys);
    InheritanceIsTheChain(d.log, path, splitKeys);
    ChildSumBag(c.log, d.log, s.id);
  }
}
