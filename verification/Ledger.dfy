/** Ring entries, the bucket table they feed, and what the table must equal at every moment. */
module Ledger {
  import opened Spans
  import opened Splits
  import opened Buckets

  /** Identity of an aggregation row: full ancestry stack plus resolved split values. */
  datatype BucketKey = BucketKey(stack: seq<string>, splits: Pairs)

  datatype Entry = Entry(span: WireSpan, bucket: BucketKey, total: nat, selfNs: nat)

  type Books = map<BucketKey, BucketState>

  /** What the entries `es` contribute to bucket `k`, in ring order. */
  ghost function Contribs(es: seq<Entry>, k: BucketKey): seq<Contribution> {
    if es == [] then [] else Line(es[0], k) + Contribs(es[1..], k)
  }

  ghost function Line(e: Entry, k: BucketKey): seq<Contribution> {
    if e.bucket == k then [(e.total, e.selfNs)] else []
  }

  lemma {:induction false} ContribsConcat(a: seq<Entry>, b: seq<Entry>, k: BucketKey)
    ensures Contribs(a + b, k) == Contribs(a, k) + Contribs(b, k)
  {
    if a == [] {
      assert a + b == b;
    } else {
      assert (a + b)[1..] == a[1..] + b;
      ContribsConcat(a[1..], b, k);
    }
  }

  lemma ContribsOne(e: Entry, k: BucketKey)
    ensures Contribs([e], k) == Line(e, k)
  {
    assert [e][1..] == [] && Line(e, k) + [] == Line(e, k);
  }

  lemma ContribsAround(a: seq<Entry>, e: Entry, b: seq<Entry>, k: BucketKey)
    ensures Contribs(a + [e] + b, k) == Contribs(a, k) + Line(e, k) + Contribs(b, k)
    ensures Contribs(a + b, k) == Contribs(a, k) + Contribs(b, k)
  {
    hide Contribs, Line;
    ContribsConcat(a + [e], b, k);
    ContribsConcat(a, [e], k);
    ContribsOne(e, k);
    ContribsConcat(a, b, k);
  }

  ghost predicate Holds(books: Books, k: BucketKey, c: seq<Contribution>) {
    && (k in books <==> c != [])
    && (k in books ==> Tallies(books[k], c))
  }

  ghost predicate ExactAt(books: Books, es: seq<Entry>, k: BucketKey) {
    Holds(books, k, Contribs(es, k))
  }

  /** Every bucket holds exactly its entries' statistics, and no empty bucket exists. */
  ghost predicate Exact(books: Books, es: seq<Entry>) {
    forall k :: ExactAt(books, es, k)
  }

  /** The entries leave no choice of buckets. */
  lemma ExactUnique(a: Books, b: Books, es: seq<Entry>)
    requires Exact(a, es) && Exact(b, es)
    ensures a == b
  {
    hide Tallies, Contribs;
    forall k ensures k in a <==> k in b {
      assert ExactAt(a, es, k) && ExactAt(b, es, k);
    }
    forall k | k in a ensures a[k] == b[k] {
      assert ExactAt(a, es, k) && ExactAt(b, es, k);
      TallyUnique(a[k], b[k], Contribs(es, k));
    }
  }

  function Post(books: Books, k: BucketKey, total: nat, self: nat): Books {
    books[k := (if k in books then books[k] else EMPTY).Add(total, self)]
  }

  /** Posting an entry anywhere in the sequence. */
  lemma PostExact(books: Books, a: seq<Entry>, e: Entry, b: seq<Entry>)
    requires Exact(books, a + b)
    ensures Exact(Post(books, e.bucket, e.total, e.selfNs), a + [e] + b)
  {
    forall k ensures ExactAt(Post(books, e.bucket, e.total, e.selfNs), a + [e] + b, k) {
      assert ExactAt(books, a + b, k);
      PostExactAt(books, a, e, b, k);
    }
  }

  lemma PostExactAt(books: Books, a: seq<Entry>, e: Entry, b: seq<Entry>, k: BucketKey)
    requires ExactAt(books, a + b, k)
    ensures ExactAt(Post(books, e.bucket, e.total, e.selfNs), a + [e] + b, k)
  {
    hide Contribs, Tallies;
    ContribsAround(a, e, b, k);
    if k == e.bucket {
      PostHolds(books, k, Contribs(a, k), (e.total, e.selfNs), Contribs(b, k));
    } else {
      assert Contribs(a, k) + [] + Contribs(b, k) == Contribs(a, k) + Contribs(b, k);
    }
  }

  lemma PostHolds(books: Books, k: BucketKey, a: seq<Contribution>, x: Contribution, b: seq<Contribution>)
    requires Holds(books, k, a + b)
    ensures Holds(Post(books, k, x.0, x.1), k, a + [x] + b)
  {
    if k !in books {
      assert Tallies(EMPTY, a + b);
    }
    TallyAdd(if k in books then books[k] else EMPTY, a, x, b);
  }

  predicate CanRemove(books: Books, e: Entry) {
    && e.bucket in books
    && var st := books[e.bucket];
    && st.count > 0 && st.totalSum >= e.total && st.selfSum >= e.selfNs
    && e.total in st.totals && st.totals[e.total] > 0 && e.selfNs in st.selfs && st.selfs[e.selfNs] > 0
  }

  lemma Removable(books: Books, a: seq<Entry>, e: Entry, b: seq<Entry>)
    requires Exact(books, a + [e] + b)
    ensures CanRemove(books, e)
    ensures Tallies(books[e.bucket].Remove(e.total, e.selfNs),
                    Contribs(a, e.bucket) + Contribs(b, e.bucket))
  {
    var k := e.bucket;
    ContribsAround(a, e, b, k);
    assert ExactAt(books, a + [e] + b, k);
    TallyRemove(books[k], Contribs(a, k), (e.total, e.selfNs), Contribs(b, k));
  }

  function Unpost(books: Books, e: Entry): Books
    requires CanRemove(books, e)
  {
    var st := books[e.bucket].Remove(e.total, e.selfNs);
    if st.count == 0 then books - {e.bucket} else books[e.bucket := st]
  }

  /** Taking an entry out again, dropping its bucket when that was the last one. */
  lemma UnpostExact(books: Books, a: seq<Entry>, e: Entry, b: seq<Entry>)
    requires Exact(books, a + [e] + b) && CanRemove(books, e)
    ensures Exact(Unpost(books, e), a + b)
  {
    hide ExactAt, Unpost;
    forall k ensures ExactAt(Unpost(books, e), a + b, k) {
      assert ExactAt(books, a + [e] + b, k);
      UnpostExactAt(books, a, e, b, k);
    }
  }

  lemma UnpostExactAt(books: Books, a: seq<Entry>, e: Entry, b: seq<Entry>, k: BucketKey)
    requires ExactAt(books, a + [e] + b, k) && CanRemove(books, e)
    ensures ExactAt(Unpost(books, e), a + b, k)
  {
    hide Contribs, Tallies;
    ContribsAround(a, e, b, k);
    if k == e.bucket {
      UnpostHolds(books, e, Contribs(a, k), Contribs(b, k));
    } else {
      assert Contribs(a, k) + [] + Contribs(b, k) == Contribs(a, k) + Contribs(b, k);
    }
  }

  lemma UnpostHolds(books: Books, e: Entry, a: seq<Contribution>, b: seq<Contribution>)
    requires CanRemove(books, e) && Holds(books, e.bucket, a + [(e.total, e.selfNs)] + b)
    ensures Holds(Unpost(books, e), e.bucket, a + b)
  {
    TallyRemove(books[e.bucket], a, (e.total, e.selfNs), b);
    hide Counted, Sum, Totals, Selfs;
    assert |a + [(e.total, e.selfNs)] + b| == |a + b| + 1;
  }

  /** The same entry with another self time: remove the old pair, add the new one. */
  function Restate(books: Books, e: Entry, self: nat): Books
    requires CanRemove(books, e)
  {
    books[e.bucket := books[e.bucket].Remove(e.total, e.selfNs).Add(e.total, self)]
  }

  lemma RestateExact(books: Books, es: seq<Entry>, j: nat, self: nat)
    requires Exact(books, es) && j < |es|
    ensures CanRemove(books, es[j])
    ensures Exact(Restate(books, es[j], self), es[j := es[j].(selfNs := self)])
  {
    var a, e, b := es[..j], es[j], es[j + 1..];
    var e' := e.(selfNs := self);
    assert es == a + [e] + b && es[j := e'] == a + [e'] + b;
    Removable(books, a, e, b);
    hide ExactAt, Restate;
    forall k ensures ExactAt(Restate(books, e, self), a + [e'] + b, k) {
      assert ExactAt(books, a + [e] + b, k);
      RestateExactAt(books, a, e, self, b, k);
    }
  }

  lemma RestateExactAt(books: Books, a: seq<Entry>, e: Entry, self: nat, b: seq<Entry>, k: BucketKey)
    requires ExactAt(books, a + [e] + b, k) && CanRemove(books, e)
    requires Tallies(books[e.bucket].Remove(e.total, e.selfNs), Contribs(a, e.bucket) + Contribs(b, e.bucket))
    ensures ExactAt(Restate(books, e, self), a + [e.(selfNs := self)] + b, k)
  {
    hide Contribs, Tallies;
    var e' := e.(selfNs := self);
    ContribsAround(a, e, b, k);
    ContribsAround(a, e', b, k);
    if k == e.bucket {
      TallyAdd(books[k].Remove(e.total, e.selfNs), Contribs(a, k), (e.total, self), Contribs(b, k));
    }
  }

  /** Total time of `id`'s direct children among `spans`. */
  ghost function ChildSum(spans: seq<WireSpan>, id: nat): nat {
    if spans == [] then 0
    else Share(spans[0], id) + ChildSum(spans[1..], id)
  }

  /** What `s` takes off the self time of span `id`. */
  ghost function Share(s: WireSpan, id: nat): nat {
    if s.parent == Some(id) then Total(s) else 0
  }

  lemma ChildSumNone(spans: seq<WireSpan>, id: nat)
    requires forall t :: t in spans ==> t.parent != Some(id)
    ensures ChildSum(spans, id) == 0
  {
  }

  lemma {:induction false} ChildSumSnoc(spans: seq<WireSpan>, s: WireSpan, id: nat)
    ensures ChildSum(spans + [s], id) == ChildSum(spans, id) + Share(s, id)
  {
    if spans == [] {
      assert (spans + [s])[1..] == [];
    } else {
      assert (spans + [s])[1..] == spans[1..] + [s];
      ChildSumSnoc(spans[1..], s, id);
    }
  }

  function At(m: map<nat, nat>, k: nat): nat {
    if k in m then m[k] else 0
  }

  /** `sums`, read with default zero, is the child sum of every id over `ring`. */
  ghost predicate SumsAre(sums: map<nat, nat>, ids: set<nat>, ring: seq<WireSpan>) {
    && sums.Keys <= ids
    && forall id :: id in ids ==> At(sums, id) == ChildSum(ring, id)
  }

  lemma SumsForget(sums: map<nat, nat>, ids: set<nat>, ring: seq<WireSpan>, id: nat)
    requires SumsAre(sums, ids, ring)
    ensures SumsAre(sums - {id}, ids - {id}, ring)
  {
  }

  /** The sums after `child` is no longer counted. */
  function Refund(sums: map<nat, nat>, child: WireSpan): map<nat, nat> {
    if child.parent.Some? && child.parent.value in sums then
      var p := child.parent.value;
      var sum := SatSub(sums[p], Total(child));
      if sum == 0 then sums - {p} else sums[p := sum]
    else sums
  }

  lemma RefundExact(sums: map<nat, nat>, ids: set<nat>, ring: seq<WireSpan>)
    requires ring != [] && SumsAre(sums, ids, ring)
    ensures SumsAre(Refund(sums, ring[0]), ids, ring[1..])
    ensures ring[0].parent.Some? && ring[0].parent.value in sums ==>
              SatSub(sums[ring[0].parent.value], Total(ring[0])) == ChildSum(ring[1..], ring[0].parent.value)
    ensures ring[0].parent.Some? && ring[0].parent.value in ids && ring[0].parent.value !in sums ==>
              Total(ring[0]) == 0
  {
    forall id | id in ids ensures At(Refund(sums, ring[0]), id) == ChildSum(ring[1..], id) {
      assert At(sums, id) == ChildSum(ring, id) == Share(ring[0], id) + ChildSum(ring[1..], id);
    }
  }

  lemma SumsAdmit(sums: map<nat, nat>, ids: set<nat>, ring: seq<WireSpan>, id: nat)
    requires SumsAre(sums, ids, ring) && id !in ids && ChildSum(ring, id) == 0
    ensures SumsAre(sums, ids + {id}, ring)
  {
  }

  /** The sums once `s` is counted at the back, its parent being among `ids`. */
  lemma ChargeExact(sums: map<nat, nat>, ids: set<nat>, ring: seq<WireSpan>, s: WireSpan)
    requires SumsAre(sums, ids, ring)
    ensures SumsAre(if s.parent.Some? && s.parent.value in ids
                    then sums[s.parent.value := At(sums, s.parent.value) + Total(s)] else sums,
                    ids, ring + [s])
  {
    forall id: nat ensures ChildSum(ring + [s], id) == ChildSum(ring, id) + Share(s, id) {
      ChildSumSnoc(ring, s, id);
    }
  }

  /** A bucket key from a span and the key its parent resolved to, if it has a parent. */
  ghost function Extend(s: WireSpan, parent: Option<BucketKey>, splitKeys: set<string>): BucketKey {
    match parent
    case None => BucketKey([s.name], Resolve(s.fields, [], splitKeys))
    case Some(p) => BucketKey(p.stack + [s.name], Resolve(s.fields, p.splits, splitKeys))
  }

  ghost function Lookup<K, V>(m: map<K, V>, k: Option<K>): Option<V> {
    if k.Some? && k.value in m then Some(m[k.value]) else None
  }

  /** Bucket key of every span of an insertion log in which parents come first. */
  ghost function KeyMap(log: seq<WireSpan>, splitKeys: set<string>): map<nat, BucketKey> {
    if log == [] then map[]
    else
      var s := log[|log| - 1];
      var m := KeyMap(log[..|log| - 1], splitKeys);
      m[s.id := Extend(s, Lookup(m, s.parent), splitKeys)]
  }

  lemma KeyMapSnoc(log: seq<WireSpan>, s: WireSpan, splitKeys: set<string>)
    ensures KeyMap(log + [s], splitKeys) ==
            var m := KeyMap(log, splitKeys); m[s.id := Extend(s, Lookup(m, s.parent), splitKeys)]
  {
    assert (log + [s])[..|log|] == log;
  }

  lemma {:induction false} KeyMapDomain(log: seq<WireSpan>, splitKeys: set<string>)
    ensures KeyMap(log, splitKeys).Keys == IdSet(log)
  {
    if log == [] {
    } else {
      var n := |log| - 1;
      hide Extend;
      KeyMapDomain(log[..n], splitKeys);
      IdSetSnoc(log[..n], log[n]);
      assert log == log[..n] + [log[n]];
    }
  }

  /** The entry the ring must hold for `s`. */
  ghost function EntryFor(ring: seq<WireSpan>, keys: map<nat, BucketKey>, s: WireSpan): Entry
    requires s.id in keys
  {
    Entry(s, keys[s.id], Total(s), SatSub(Total(s), ChildSum(ring, s.id)))
  }

  /** All entries the ring must hold, in order. */
  ghost function Entries(ring: seq<WireSpan>, keys: map<nat, BucketKey>): (es: seq<Entry>)
    requires IdSet(ring) <= keys.Keys
    ensures |es| == |ring|
  {
    seq(|ring|, i requires 0 <= i < |ring| =>
      assert ring[i].id in IdSet(ring);
      EntryFor(ring, keys, ring[i]))
  }

  /** `es` with the self time of span `p` recomputed from a new child sum. */
  ghost function Restated(es: seq<Entry>, p: nat, sum: nat): (r: seq<Entry>)
    ensures |r| == |es|
  {
    seq(|es|, i requires 0 <= i < |es| =>
      if es[i].span.id == p then es[i].(selfNs := SatSub(es[i].total, sum)) else es[i])
  }

  /** `es` once `child`'s parent has its self time recomputed over `ring`. */
  ghost function Settled(es: seq<Entry>, child: WireSpan, ring: seq<WireSpan>): seq<Entry> {
    if child.parent.None? then es
    else Restated(es, child.parent.value, ChildSum(ring, child.parent.value))
  }

  lemma EntriesAt(ring: seq<WireSpan>, keys: map<nat, BucketKey>, i: nat)
    requires IdSet(ring) <= keys.Keys && i < |ring|
    ensures ring[i].id in keys && Entries(ring, keys)[i] == EntryFor(ring, keys, ring[i])
  {
    assert ring[i].id in IdSet(ring);
  }

  /** The front entry leaves: the others are unchanged but for its parent's self time. */
  lemma EntriesWithoutFront(ring: seq<WireSpan>, keys: map<nat, BucketKey>)
    requires IdSet(ring) <= keys.Keys && ring != []
    ensures IdSet(ring[1..]) <= keys.Keys
    ensures Entries(ring[1..], keys) == Settled(Entries(ring, keys)[1..], ring[0], ring[1..])
  {
    var rest := ring[1..];
    assert IdSet(rest) <= IdSet(ring);
    hide IdSet, ChildSum, Entries;
    var es := Settled(Entries(ring, keys)[1..], ring[0], rest);
    forall i | 0 <= i < |rest| ensures Entries(rest, keys)[i] == es[i] {
      EntriesAt(rest, keys, i);
      EntriesAt(ring, keys, i + 1);
      ChildSumFront(ring, rest[i].id);
    }
  }

  lemma ChildSumFront(ring: seq<WireSpan>, id: nat)
    requires ring != []
    ensures ChildSum(ring, id) == Share(ring[0], id) + ChildSum(ring[1..], id)
  {
  }

  /** A span joins the back: the others are unchanged but for its parent's self time. */
  lemma EntriesWithBack(ring: seq<WireSpan>, keys: map<nat, BucketKey>, s: WireSpan, key: BucketKey)
    requires IdSet(ring) <= keys.Keys && s.id !in IdSet(ring)
    ensures IdSet(ring + [s]) <= keys[s.id := key].Keys
    ensures var keys' := keys[s.id := key];
            Entries(ring + [s], keys') ==
            Settled(Entries(ring, keys), s, ring + [s]) + [EntryFor(ring + [s], keys', s)]
  {
    var keys' := keys[s.id := key];
    var more := ring + [s];
    assert IdSet(more) <= keys'.Keys;
    forall i | 0 <= i < |ring|
      ensures Entries(more, keys')[i] == EntryFor(more, keys', ring[i])
      ensures Entries(ring, keys)[i] == EntryFor(ring, keys, ring[i])
      ensures ring[i].id != s.id
    {
      EntriesAt(more, keys', i);
      EntriesAt(ring, keys, i);
      assert ring[i].id in IdSet(ring);
    }
    forall id: nat ensures ChildSum(more, id) == ChildSum(ring, id) + Share(s, id) {
      ChildSumSnoc(ring, s, id);
    }
    EntriesAt(more, keys', |ring|);
  }

  /** A front child of zero duration leaves its parent's self time alone. */
  lemma SettledUnchanged(ring: seq<WireSpan>, keys: map<nat, BucketKey>)
    requires IdSet(ring) <= keys.Keys && ring != [] && Total(ring[0]) == 0
    ensures Settled(Entries(ring, keys)[1..], ring[0], ring[1..]) == Entries(ring, keys)[1..]
  {
    forall i | 1 <= i < |ring| ensures Entries(ring, keys)[i] == EntryFor(ring, keys, ring[i]) {
      EntriesAt(ring, keys, i);
    }
  }

  lemma FrontLeaves(ring: seq<WireSpan>, keys: map<nat, BucketKey>)
    requires IdSet(ring) <= keys.Keys && ring != []
    ensures IdSet(ring[1..]) <= keys.Keys
    ensures Entries(ring, keys)[0].span == ring[0]
    ensures Entries(ring[1..], keys) == Settled(Entries(ring, keys)[1..], ring[0], ring[1..])
    ensures Total(ring[0]) == 0 ==>
              Settled(Entries(ring, keys)[1..], ring[0], ring[1..]) == Entries(ring, keys)[1..]
  {
    EntriesAt(ring, keys, 0);
    EntriesWithoutFront(ring, keys);
    if Total(ring[0]) == 0 {
      SettledUnchanged(ring, keys);
    }
  }

  lemma RestatedAbsent(es: seq<Entry>, p: nat, sum: nat)
    requires forall i :: 0 <= i < |es| ==> es[i].span.id != p
    ensures Restated(es, p, sum) == es
  {
  }

  /** Removing the front entry from the table, when the buckets are exact. */
  lemma UnpostFront(books: Books, es: seq<Entry>)
    requires Exact(books, es) && es != []
    ensures CanRemove(books, es[0]) && Exact(Unpost(books, es[0]), es[1..])
  {
    assert es == [] + [es[0]] + es[1..] && [] + es[1..] == es[1..];
    Removable(books, [], es[0], es[1..]);
    UnpostExact(books, [], es[0], es[1..]);
  }

  lemma PostBack(books: Books, es: seq<Entry>, e: Entry)
    requires Exact(books, es)
    ensures Exact(Post(books, e.bucket, e.total, e.selfNs), es + [e])
  {
    assert es + [] == es && es + [e] + [] == es + [e];
    PostExact(books, es, e, []);
  }

  /** Child sums, span by span: each child of `id` adds its own duration, nothing else does. */
  lemma ChildSumIs(spans: seq<WireSpan>, s: WireSpan, id: nat)
    ensures ChildSum([], id) == 0
    ensures ChildSum(spans + [s], id) == ChildSum(spans, id) + if s.parent == Some(id) then Total(s) else 0
  {
    ChildSumSnoc(spans, s, id);
  }

  /** What the ring must hold for a span: its duration, and as its own time what its children leave. */
  lemma EntryIs(ring: seq<WireSpan>, keys: map<nat, BucketKey>, i: nat)
    requires IdSet(ring) <= keys.Keys && i < |ring|
    ensures ring[i].id in keys && |Entries(ring, keys)| == |ring|
    ensures var e := Entries(ring, keys)[i];
            && e.span == ring[i] && e.bucket == keys[ring[i].id] && e.total == Total(ring[i])
            && (ChildSum(ring, ring[i].id) <= e.total ==> e.selfNs + ChildSum(ring, ring[i].id) == e.total)
            && (ChildSum(ring, ring[i].id) >= e.total ==> e.selfNs == 0)
  {
    hide ChildSum, IdSet;
    EntriesAt(ring, keys, i);
    EntriesLength(ring, keys);
  }

  lemma EntriesLength(ring: seq<WireSpan>, keys: map<nat, BucketKey>)
    requires IdSet(ring) <= keys.Keys
    ensures |Entries(ring, keys)| == |ring| && forall s :: s in ring ==> s.id in keys
  {
    forall s | s in ring ensures s.id in keys {
      assert s.id in IdSet(ring);
    }
  }
}
