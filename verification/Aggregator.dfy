/** The console's incremental span aggregator. */
module Aggregation {
  import opened Spans
  import opened Splits
  import opened Buckets
  import opened Ledger
  import opened Forest
  import opened Survival
  import opened Chains
  import opened Reference
  import opened Snapshots
  import SortedRows

  class Aggregator {
    /** Span ids in insertion order; drives eviction. */
    var order: seq<nat>
    var byId: map<nat, Entry>
    var childSum: map<nat, nat>
    /** Spans waiting for a missing parent, keyed by its id. */
    var pending: Pool
    var pendingLen: nat
    const pendingCap: nat
    var buckets: Books
    var splitKeys: set<string>
    const historyBudget: nat

    ghost var log: seq<WireSpan>
    ghost var start: nat
    ghost var lost: multiset<WireSpan>

    ghost function View(): Core
      reads this`log, this`start, this`pending, this`lost
    {
      Core(historyBudget, pendingCap, log, start, pending, lost)
    }

    /** Ring order and entry map describe the entry list `es`. */
    ghost predicate Indexed(es: seq<Entry>)
      reads this`order, this`byId
    {
      && |order| == |es|
      && (forall i :: 0 <= i < |es| ==> order[i] == es[i].span.id)
      && (forall i, j :: 0 <= i < j < |order| ==> order[i] != order[j])
      && byId.Keys == (set id | id in order)
      && (forall i :: 0 <= i < |es| ==> byId[order[i]] == es[i])
    }

    /** Every table is the image of the ring under the bucket keys `keys`. */
    ghost predicate Mirrors(ring: seq<WireSpan>, keys: map<nat, BucketKey>)
      reads this`order, this`byId, this`childSum, this`buckets
    {
      && IdSet(ring) <= keys.Keys
      && Indexed(Entries(ring, keys))
      && Exact(buckets, Entries(ring, keys))
      && SumsAre(childSum, byId.Keys, ring)
    }

    /** All concrete tables agree with the log, the window and the pool. */
    ghost predicate Tables()
      reads this
    {
      start <= |log| && Mirrored() && pendingLen == PoolSize(pending)
    }

    ghost predicate Mirrored()
      requires start <= |log|
      reads this`order, this`byId, this`childSum, this`buckets, this`log, this`start, this`splitKeys
    {
      Mirrors(log[start..], KeyMap(log, splitKeys))
    }

    /** The state between two spans' turns, with `work` still in flight. */
    ghost predicate Between(work: seq<WireSpan>)
      reads this
      ensures Between(work) ==> Windowed(View())
    {
      Inv(View(), work) && Tables() && pendingCap == Fresh(historyBudget).cap
    }

    ghost predicate Valid()
      reads this
    {
      Between([])
    }

    lemma MirrorsIds(ring: seq<WireSpan>, keys: map<nat, BucketKey>)
      requires Mirrors(ring, keys)
      ensures order == Ids(ring) && byId.Keys == IdSet(ring) && DistinctIds(ring)
      ensures forall i :: 0 <= i < |ring| ==> ring[i].id in keys && byId[order[i]] == EntryFor(ring, keys, ring[i])
    {
      forall i | 0 <= i < |ring| ensures order[i] == ring[i].id && ring[i].id in keys
      {
        EntriesAt(ring, keys, i);
      }
      forall i | 0 <= i < |ring| ensures byId[order[i]] == EntryFor(ring, keys, ring[i])
      {
        EntriesAt(ring, keys, i);
      }
      forall id | id in byId ensures id in IdSet(ring) {
        var i :| 0 <= i < |order| && order[i] == id;
        assert ring[i] in ring;
      }
      forall s | s in ring ensures s.id in byId {
        var i :| 0 <= i < |ring| && ring[i] == s;
        assert order[i] in order;
      }
    }

    constructor (budget: nat)
      requires budget >= 1
      ensures Valid() && View() == Fresh(budget) && splitKeys == {}
    {
      historyBudget := budget;
      pendingCap := if budget / 4 < 1 then 1 else budget / 4;
      order, byId, childSum := [], map[], map[];
      pending, pendingLen, buckets, splitKeys := map[], 0, map[], {};
      log, start, lost := [], 0, multiset{};
      new;
      EmptyTables();
    }

    /** Rewrites span `p`'s bucket contribution for a new child sum. */
    method BumpParentSelf(p: nat, newChildSum: nat, ghost es: seq<Entry>)
      requires Indexed(es) && Exact(buckets, es)
      modifies this`byId, this`buckets
      ensures Indexed(Restated(es, p, newChildSum)) && Exact(buckets, Restated(es, p, newChildSum))
      ensures byId.Keys == old(byId.Keys)
    {
      if p !in byId {
        RestatedAbsent(es, p, newChildSum);
        return;
      }
      ghost var j :| 0 <= j < |order| && order[j] == p;
      var entry := byId[p];
      var newSelf := SatSub(entry.total, newChildSum);
      ghost var es' := es[j := es[j].(selfNs := newSelf)];
      assert es' == Restated(es, p, newChildSum);
      if newSelf == entry.selfNs {
        assert es' == es;
        return;
      }
      byId := byId[p := entry.(selfNs := newSelf)];
      RestateExact(buckets, es, j, newSelf);
      if entry.bucket in buckets {
        buckets := Restate(buckets, entry, newSelf);
      }
    }

    /** Takes the front entry out of the ring, the entry map and its bucket. */
    method PopFront(ghost es: seq<Entry>) returns (entry: Entry)
      requires Indexed(es) && Exact(buckets, es) && es != []
      modifies this`order, this`byId, this`buckets
      ensures entry == es[0] && Indexed(es[1..]) && Exact(buckets, es[1..])
      ensures byId.Keys == old(byId.Keys) - {entry.span.id}
    {
      var id := order[0];
      entry := byId[id];
      order := order[1..];
      byId := byId - {id};
      UnpostFront(buckets, es);
      if entry.bucket in buckets {
        buckets := Unpost(buckets, entry);
      }
    }

    /** Removes the waiting list of `id`, handing it to the caller. */
    method TakeWaiters(id: nat) returns (ws: seq<WireSpan>)
      requires pendingLen == PoolSize(pending)
      modifies this`pending, this`pendingLen
      ensures ws == Waiters(old(pending), id) && pending == old(pending) - {id}
      ensures pendingLen == PoolSize(pending) == old(pendingLen) - |ws|
    {
      PoolWithout(pending, id);
      ws := [];
      if id in pending {
        ws := pending[id];
        pendingLen := pendingLen - |ws|;
      }
      assert id !in pending ==> pending - {id} == pending;
      pending := pending - {id};
    }

    /** Returns an evicted child's time to its parent, if the parent is still in the ring.
        `ring` still starts with the child; `es` are the entries left. */
    method GiveBack(child: WireSpan, ghost ring: seq<WireSpan>, ghost es: seq<Entry>)
      requires ring != [] && ring[0] == child
      requires Indexed(es) && Exact(buckets, es) && SumsAre(childSum, byId.Keys, ring)
      requires Total(child) == 0 ==> Settled(es, child, ring[1..]) == es
      modifies this`byId, this`buckets, this`childSum
      ensures Indexed(Settled(es, child, ring[1..])) && Exact(buckets, Settled(es, child, ring[1..]))
      ensures SumsAre(childSum, byId.Keys, ring[1..])
    {
      RefundExact(childSum, byId.Keys, ring);
      if child.parent.Some? {
        var p := child.parent.value;
        if p in byId && p in childSum {
          var sum := SatSub(childSum[p], Total(child));
          childSum := if sum == 0 then childSum - {p} else childSum[p := sum];
          BumpParentSelf(p, sum, es);
        } else if p !in byId {
          RestatedAbsent(es, p, ChildSum(ring[1..], p));
        }
      }
    }

    /** Drops the front of the ring.  Correct for any exact tables, including when the front's
        parent is still in the ring (`NoSurvivingParent` shows that no run gets there). */
    method EvictFront(ghost ring: seq<WireSpan>, ghost keys: map<nat, BucketKey>)
      requires Mirrors(ring, keys) && pendingLen == PoolSize(pending) && ring != []
      modifies this`order, this`byId, this`childSum, this`pending, this`pendingLen, this`buckets
      ensures Mirrors(ring[1..], keys) && pendingLen == PoolSize(pending)
      ensures pending == old(pending) - {ring[0].id}
    {
      FrontLeaves(ring, keys);
      var entry := PopFront(Entries(ring, keys));
      var orphans := TakeWaiters(entry.span.id);
      SumsForget(childSum, old(byId.Keys), ring, entry.span.id);
      childSum := childSum - {entry.span.id};
      GiveBack(entry.span, ring, Entries(ring, keys)[1..]);
    }

    /** Drops the front of the ring, if there is one. */
    method EvictOldest(ghost ring: seq<WireSpan>, ghost keys: map<nat, BucketKey>)
      requires Mirrors(ring, keys) && pendingLen == PoolSize(pending)
      modifies this`order, this`byId, this`childSum, this`pending, this`pendingLen, this`buckets
      ensures pendingLen == PoolSize(pending)
      ensures ring == [] ==> Mirrors(ring, keys) && pending == old(pending)
      ensures ring != [] ==> Mirrors(ring[1..], keys) && pending == old(pending) - {ring[0].id}
    {
      if order != [] {
        EvictFront(ring, keys);
      }
    }

    /** Counts a new child against its parent, if the parent is in the ring. */
    method ChargeParent(s: WireSpan, parentInRing: bool, ghost ring: seq<WireSpan>, ghost es: seq<Entry>)
      requires Indexed(es) && Exact(buckets, es) && SumsAre(childSum, byId.Keys, ring)
      requires s.parent.Some? && s.parent.value in byId ==> parentInRing
      modifies this`byId, this`buckets, this`childSum
      ensures Indexed(Settled(es, s, ring + [s])) && Exact(buckets, Settled(es, s, ring + [s]))
      ensures SumsAre(childSum, byId.Keys, ring + [s]) && byId.Keys == old(byId.Keys)
    {
      hide ExactAt, ChildSum, Entries;
      ChargeExact(childSum, byId.Keys, ring, s);
      if parentInRing && s.parent.Some? && s.parent.value in byId {
        var p := s.parent.value;
        var sum := At(childSum, p) + Total(s);
        childSum := childSum[p := sum];
        BumpParentSelf(p, sum, es);
      } else if s.parent.Some? {
        RestatedAbsent(es, s.parent.value, ChildSum(ring + [s], s.parent.value));
      }
    }

    /** Steps 4 to 6 of absorbing: settle the parent, post to the bucket, join the ring. */
    method Insert(s: WireSpan, bucket: BucketKey, self: nat, parentInRing: bool,
                  ghost ring: seq<WireSpan>, ghost keys: map<nat, BucketKey>)
      requires Mirrors(ring, keys) && s.id !in byId
      requires s.parent.Some? && s.parent.value in byId ==> parentInRing
      requires ChildSum(ring + [s], s.id) == 0 && self == Total(s)
      modifies this`order, this`byId, this`buckets, this`childSum
      ensures Mirrors(ring + [s], keys[s.id := bucket])
    {
      ghost var es := Entries(ring, keys);
      MirrorsIds(ring, keys);
      EntriesWithBack(ring, keys, s, bucket);
      ChargeParent(s, parentInRing, ring, Entries(ring, keys));
      SumsAdmit(childSum, byId.Keys, ring + [s], s.id);
      PushBack(Entry(s, bucket, Total(s), self), Settled(Entries(ring, keys), s, ring + [s]));
    }

    /** Posts the entry to its bucket and appends it to the ring. */
    method PushBack(entry: Entry, ghost es: seq<Entry>)
      requires Indexed(es) && Exact(buckets, es) && entry.span.id !in byId
      modifies this`order, this`byId, this`buckets
      ensures Indexed(es + [entry]) && Exact(buckets, es + [entry])
      ensures byId.Keys == old(byId.Keys) + {entry.span.id}
    {
      PostBack(buckets, es, entry);
      buckets := Post(buckets, entry.bucket, entry.total, entry.selfNs);
      order := order + [entry.span.id];
      byId := byId[entry.span.id := entry];
    }

    /** Drops whole waiting lists, lowest missing parent first, until the pool fits. */
    method ShedOverflow()
      requires pendingLen == PoolSize(pending)
      modifies this`pending, this`pendingLen
      ensures pending == Trim(old(pending), pendingCap) && pendingLen == PoolSize(pending)
    {
      while pendingLen > pendingCap
        invariant pendingLen == PoolSize(pending) && Trim(pending, pendingCap) == Trim(old(pending), pendingCap)
        decreases |pending|
      {
        if pending == map[] {
          break;
        }
        var dropped := TakeWaiters(Least(pending.Keys));
      }
    }

    /** Parks a span under its missing parent. */
    method ParkPending(missing: nat, s: WireSpan)
      requires pendingLen == PoolSize(pending) && s.parent == Some(missing)
      modifies this`pending, this`pendingLen, this`lost
      ensures View() == Park(old(View()), s) && pendingLen == PoolSize(pending)
    {
      EnqueueSpans(pending, missing, s);
      pending := pending[missing := Waiters(pending, missing) + [s]];
      pendingLen := pendingLen + 1;
      ghost var full := pending;
      ShedOverflow();
      lost := lost + (PoolSpans(full) - PoolSpans(pending));
    }

    /** A root's own key, or the parent's key extended. */
    method ResolveBucket(s: WireSpan, parentEntry: Option<Entry>) returns (bucket: BucketKey)
      ensures bucket == Extend(s, if parentEntry.Some? then Some(parentEntry.value.bucket) else None, splitKeys)
    {
      match parentEntry
      case None =>
        var splits := CollectSplits(s.fields, None, splitKeys);
        bucket := BucketKey([s.name], splits);
      case Some(e) =>
        var splits := CollectSplits(s.fields, Some(e.bucket.splits), splitKeys);
        bucket := BucketKey(e.bucket.stack + [s.name], splits);
    }

    method EvictOne(ghost keys: map<nat, BucketKey>)
      requires start < |log| && Mirrors(log[start..], keys)
      requires pendingLen == PoolSize(pending) && log[start].id !in pending
      modifies this`order, this`byId, this`childSum, this`pending, this`pendingLen, this`buckets, this`start
      ensures start == old(start) + 1 && |order| == old(|order|) - 1 && Mirrors(log[start..], keys)
      ensures pending == old(pending) && pendingLen == PoolSize(pending)
    {
      assert log[start..][1..] == log[start + 1..];
      EvictOldest(log[start..], keys);
      assert pending == old(pending);
      start := start + 1;
    }

    /** Evicts until one more span fits.  In a reachable state no waiting list is keyed by a ring
        id, so the pool is untouched. */
    method MakeRoom(ghost keys: map<nat, BucketKey>)
      requires Windowed(View()) && Mirrors(log[start..], keys)
      requires pendingLen == PoolSize(pending) && PoolKeyed(View())
      modifies this`order, this`byId, this`childSum, this`pending, this`pendingLen, this`buckets, this`start
      ensures old(start) <= start <= |log| && Mirrors(log[start..], keys)
      ensures pending == old(pending) && pendingLen == PoolSize(pending)
      ensures start == if |log| + 1 - old(start) > historyBudget then |log| + 1 - historyBudget else old(start)
    {
      ghost var c := View();
      assert |order| == |log| - start;
      while |order| >= historyBudget
        invariant old(start) <= start <= |log| && |order| == |log| - start && Mirrors(log[start..], keys)
        invariant pending == old(pending) && pendingLen == PoolSize(pending)
        invariant start == old(start) || |order| == historyBudget - 1
        decreases |order|
      {
        assert log[start] in Ring(c) && log[start].id in IdSet(Ring(c));
        EvictOne(keys);
      }
    }

    method JoinRing(s: WireSpan, bucket: BucketKey, self: nat, parentInRing: bool, ghost keys: map<nat, BucketKey>)
      requires start <= |log| && Mirrors(log[start..], keys)
      requires NewTo(log, s) && parentInRing == s.parent.Some? && self == Total(s)
      modifies this`order, this`byId, this`childSum, this`buckets, this`log
      ensures log == old(log) + [s] && Mirrors(log[start..], keys[s.id := bucket])
    {
      hide Mirrors;
      ghost var ring := log[start..];
      MirrorsIds(ring, keys);
      RingIsNew(log, start, s);
      Insert(s, bucket, self, parentInRing, ring, keys);
      log := log + [s];
      assert log[start..] == ring + [s];
    }

    /** Steps 2 to 6 of absorbing: self time, room, parent, bucket, ring. */
    method CommitTables(s: WireSpan, bucket: BucketKey, parentInRing: bool, ghost keys: map<nat, BucketKey>)
      requires Windowed(View()) && PoolKeyed(View()) && pendingLen == PoolSize(pending)
      requires Mirrors(log[start..], keys)
      requires NewTo(log, s) && parentInRing == s.parent.Some?
      modifies this`order, this`byId, this`childSum, this`pending, this`pendingLen, this`buckets,
               this`start, this`log
      ensures pending == old(pending) && pendingLen == PoolSize(pending)
      ensures log == old(log) + [s] && start == Commit(old(View()), s).start
      ensures Mirrors(log[start..], keys[s.id := bucket])
    {
      MirrorsIds(log[start..], keys);
      RingIsNew(log, start, s);
      var self := SatSub(Total(s), At(childSum, s.id));
      MakeRoom(keys);
      JoinRing(s, bucket, self, parentInRing, keys);
    }

    lemma RingIsNew(spans: seq<WireSpan>, from: nat, s: WireSpan)
      requires NewTo(spans, s) && from <= |spans|
      ensures s.id !in IdSet(spans[from..]) && ChildSum(spans[from..] + [s], s.id) == 0
    {
      forall t | t in spans[from..] ensures t in spans {}
      ChildSumNone(spans[from..] + [s], s.id);
    }

    method CommitKeyed(s: WireSpan, bucket: BucketKey)
      requires Windowed(View()) && PoolKeyed(View()) && Tables() && NewTo(log, s)
      requires bucket == Extend(s, Lookup(KeyMap(log, splitKeys), s.parent), splitKeys)
      modifies this`order, this`byId, this`childSum, this`pending, this`pendingLen, this`buckets,
               this`start, this`log
      ensures pending == old(pending) && Tables()
      ensures log == old(log) + [s] && start == Commit(old(View()), s).start
    {
      KeyMapSnoc(log, s, splitKeys);
      CommitTables(s, bucket, s.parent.Some?, KeyMap(log, splitKeys));
    }

    /** Places `s`, which is resolvable, and releases the spans that waited for it. */
    method CommitSpan(s: WireSpan, bucket: BucketKey) returns (waiters: seq<WireSpan>)
      requires Windowed(View()) && PoolKeyed(View()) && Tables() && NewTo(log, s)
      requires bucket == Extend(s, Lookup(KeyMap(log, splitKeys), s.parent), splitKeys)
      modifies this`order, this`byId, this`childSum, this`pending, this`pendingLen, this`buckets,
               this`start, this`log
      ensures waiters == Waiters(old(pending), s.id)
      ensures View() == Commit(old(View()), s) && Tables()
    {
      hide Mirrored, Extend, KeyMap;
      CommitKeyed(s, bucket);
      waiters := TakeWaiters(s.id);
    }

    /** The bucket key of a resolvable span, read off the parent's ring entry. */
    method FindBucket(s: WireSpan) returns (bucket: Option<BucketKey>)
      requires Windowed(View()) && Tables()
      ensures bucket.Some? <==> Resolvable(View(), s)
      ensures bucket.Some? ==> bucket.value == Extend(s, Lookup(KeyMap(log, splitKeys), s.parent), splitKeys)
    {
      ghost var keys := KeyMap(log, splitKeys);
      MirrorsIds(log[start..], keys);
      if s.parent.None? {
        var b := ResolveBucket(s, None);
        bucket := Some(b);
      } else if s.parent.value in byId {
        var parent := byId[s.parent.value];
        assert parent.bucket == keys[s.parent.value] by {
          var i :| 0 <= i < |order| && order[i] == s.parent.value;
          assert byId[order[i]] == EntryFor(log[start..], keys, log[start..][i]);
        }
        var b := ResolveBucket(s, Some(parent));
        bucket := Some(b);
      } else {
        bucket := None;
      }
    }

    /** Absorbs one span and, recursively, every waiter it releases.  `rest` is what the callers
        further up still hold. */
    method AbsorbResolved(s: WireSpan, inserted: seq<nat>, ghost rest: seq<WireSpan>)
      returns (inserted': seq<nat>)
      requires Between([s] + rest)
      modifies this
      ensures View() == Drain(old(View()), [s]) && Between(rest) && splitKeys == old(splitKeys)
      ensures old(log) <= log && inserted' == inserted + NewIds(old(log), log)
      decreases PoolSize(pending), 2
    {
      hide Inv, Mirrored, Drain, KeyMap, Extend;
      var bucket := FindBucket(s);
      if bucket.None? {
        AbsorbOrphan(s, rest);
        NewIdsNone(inserted, log);
        inserted' := inserted;
      } else {
        inserted' := AbsorbCommitted(s, bucket.value, inserted, rest);
      }
    }

    method AbsorbOrphan(s: WireSpan, ghost rest: seq<WireSpan>)
      requires Between([s] + rest) && !Resolvable(View(), s)
      modifies this`pending, this`pendingLen, this`lost
      ensures View() == Drain(old(View()), [s]) && Between(rest)
    {
      hide Inv, Mirrored, Drain;
      ParkTurn(View(), s, rest);
      ParkPending(s.parent.value, s);
    }

    method AbsorbCommitted(s: WireSpan, bucket: BucketKey, inserted: seq<nat>, ghost rest: seq<WireSpan>)
      returns (inserted': seq<nat>)
      requires Between([s] + rest) && Resolvable(View(), s)
      requires bucket == Extend(s, Lookup(KeyMap(log, splitKeys), s.parent), splitKeys)
      modifies this
      ensures View() == Drain(old(View()), [s]) && Between(rest) && splitKeys == old(splitKeys)
      ensures old(log) <= log && inserted' == inserted + NewIds(old(log), log)
      decreases PoolSize(pending), 1
    {
      hide Inv, Mirrored, Drain, KeyMap, Extend;
      CommitTurn(View(), s, rest);
      var waiters := CommitSpan(s, bucket);
      inserted' := DrainWaiters(waiters, inserted + [s.id], rest);
      NewIdsCons(inserted, old(log), s, log);
    }

    method DrainWaiters(waiters: seq<WireSpan>, inserted: seq<nat>, ghost rest: seq<WireSpan>)
      returns (inserted': seq<nat>)
      requires Between(waiters + rest)
      modifies this
      ensures View() == Drain(old(View()), waiters) && Between(rest) && splitKeys == old(splitKeys)
      ensures old(log) <= log && inserted' == inserted + NewIds(old(log), log)
      decreases PoolSize(pending) + |waiters|, 0
    {
      inserted' := inserted;
      ghost var c := View();
      WholeOf(waiters, rest);
      NewIdsNone(inserted, log);
      assert Drain(c, waiters[..0]) == c;
      hide Inv, Mirrored, Drain, NewIds;
      for i := 0 to |waiters|
        invariant View() == Drain(c, waiters[..i]) && Between(waiters[i..] + rest)
        invariant splitKeys == old(splitKeys) && c.log <= log
        invariant inserted' == inserted + NewIds(c.log, log)
      {
        NextOf(waiters, i, rest);
        DrainPool(c, waiters[..i]);
        ghost var before := log;
        inserted' := AbsorbResolved(waiters[i], inserted', waiters[i + 1..] + rest);
        DrainConcat(c, waiters[..i], [waiters[i]]);
        NewIdsChain(inserted, c.log, before, log);
      }
    }

    /** Absorbs a span and every pending descendant it unblocks; the result lists, in insertion
        order, every id that reached the ring.  Open spans are discarded. */
    method Absorb(s: WireSpan) returns (inserted: seq<nat>)
      requires Valid() && (s.closedAt.Some? ==> Unused(View(), [s]))
      modifies this
      ensures Valid() && splitKeys == old(splitKeys)
      ensures View() == Drain(old(View()), Closed([s]))
      ensures old(log) <= log && inserted == NewIds(old(log), log)
    {
      assert [s][1..] == [];
      if s.closedAt.None? {
        NewIdsNone([], log);
        return [];
      }
      Admit(View(), [s]);
      assert [s] + [] == [s];
      inserted := AbsorbResolved(s, [], []);
    }

    /** The ring's spans in insertion order, as a snapshot or a rebuild collects them. */
    method RingSpans(ghost ring: seq<WireSpan>, ghost keys: map<nat, BucketKey>) returns (spans: seq<WireSpan>)
      requires Mirrors(ring, keys)
      ensures spans == ring
    {
      MirrorsIds(ring, keys);
      hide Mirrors;
      spans := [];
      for i := 0 to |order|
        invariant spans == ring[..i]
      {
        if order[i] in byId {
          spans := spans + [byId[order[i]].span];
        }
      }
    }

    method ClearTables()
      modifies this
      ensures View() == Blank(old(View())) && Tables() && splitKeys == old(splitKeys)
    {
      hide Mirrored, KeyMap;
      order, byId, childSum, buckets := [], map[], map[], map[];
      pending, pendingLen := map[], 0;
      log, start, lost := [], 0, multiset{};
      EmptyTables();
    }

    lemma EmptyTables()
      requires order == [] && byId == map[] && childSum == map[] && buckets == map[]
      requires pending == map[] && pendingLen == 0 && log == [] && start == 0
      ensures Tables()
    {
      assert Entries([], KeyMap([], splitKeys)) == [];
      forall k ensures ExactAt(map[], [], k) {}
    }

    method RestorePool(saved: Pool, savedLen: nat, ghost nowLost: multiset<WireSpan>)
      requires Tables() && savedLen == PoolSize(saved)
      modifies this`pending, this`pendingLen, this`lost
      ensures pending == saved && lost == nowLost && Tables()
    {
      hide Mirrored;
      pending, pendingLen, lost := saved, savedLen, nowLost;
    }

    /** Starts over and absorbs `spans` in order. */
    method ReplaySpans(spans: seq<WireSpan>)
      requires Inv(Blank(View()), spans) && pendingCap == Fresh(historyBudget).cap
      modifies this
      ensures View() == Drain(Blank(old(View())), spans) && Valid() && splitKeys == old(splitKeys)
    {
      assert spans + [] == spans;
      hide Inv, Mirrored, KeyMap, Drain;
      ClearTables();
      var sink := DrainWaiters(spans, [], []);
    }

    /** Clears every table and re-absorbs the ring in order, with the pool set aside meanwhile.
        The tables still follow `oldKeys` on entry. */
    method RebuildBuckets(ghost oldKeys: set<string>)
      requires Inv(View(), []) && pendingLen == PoolSize(pending) && start <= |log|
      requires pendingCap == Fresh(historyBudget).cap
      requires Mirrors(log[start..], KeyMap(log, oldKeys))
      modifies this
      ensures View() == Regroup(old(View())) && Valid() && splitKeys == old(splitKeys)
    {
      hide Mirrors, Mirrored, KeyMap, Drain, Inv, Regroup;
      ghost var c := View();
      RegroupKeeps(c);
      BlankInv(c);
      var spans := RingSpans(log[start..], KeyMap(log, oldKeys));
      var savedPending, savedLen := pending, pendingLen;
      ReplaySpans(spans);
      RestorePool(savedPending, savedLen, Regroup(c).lost);
    }

    /** Other keys re-bucket the ring; the same keys change nothing. */
    method SetSplitKeys(newKeys: set<string>)
      requires Valid()
      modifies this
      ensures Valid() && splitKeys == newKeys
      ensures View() == if newKeys == old(splitKeys) then old(View()) else Regroup(old(View()))
    {
      if newKeys == splitKeys {
        return;
      }
      ghost var oldKeys := splitKeys;
      splitKeys := newKeys;
      RebuildBuckets(oldKeys);
    }

    /** A whole batch, in order. */
    method AbsorbAll(batch: seq<WireSpan>)
      requires Valid() && Unused(View(), Closed(batch))
      modifies this
      ensures Valid() && splitKeys == old(splitKeys) && View() == Drain(old(View()), Closed(batch))
    {
      hide Inv, Tables, Unused, Everything, Drain;
      ghost var c := View();
      assert batch[..0] == [] && batch[0..] == batch && Closed([]) == [];
      DrainNothing(c);
      for i := 0 to |batch|
        invariant Valid() && splitKeys == old(splitKeys)
        invariant View() == Drain(c, Closed(batch[..i])) && Unused(View(), Closed(batch[i..]))
      {
        NextArrival(c, View(), batch, i);
        var inserted := Absorb(batch[i]);
      }
      assert batch[..|batch|] == batch;
    }

    /** Every bucket with its statistics, sorted by stack, then splits. */
    method Rows() returns (rows: seq<SortedRows.Row>)
      requires Valid()
      ensures SortedRows.Sorted(rows) && SortedRows.Lists(rows, AggregatorRows(View(), splitKeys))
      ensures forall r :: r in rows <==>
                (r.key in AggregatorRows(View(), splitKeys) && r.stats == AggregatorRows(View(), splitKeys)[r.key])
      ensures forall i, j :: 0 <= i < j < |rows| && rows[i].key.stack != rows[j].key.stack ==>
                SortedRows.Ascends(rows[i].key.stack, rows[j].key.stack)
    {
      rows := SortedRows.RowsOf(buckets);
      BucketsShowRows(buckets, Entries(log[start..], KeyMap(log, splitKeys)));
      SortedRows.ListsIs(rows, AggregatorRows(View(), splitKeys));
    }

    ghost function SpanMap(): map<nat, WireSpan>
      reads this`byId
    {
      map id | id in byId :: byId[id].span
    }

    lemma SpanMapOf(ring: seq<WireSpan>, keys: map<nat, BucketKey>)
      requires Mirrors(ring, keys)
      ensures SpanMap() == ById(ring)
      ensures forall id :: id in byId ==> byId[id].span.id == id
    {
      hide Mirrors;
      MirrorsIds(ring, keys);
      ByIdFinds(ring);
      forall id | id in byId ensures byId[id].span == ById(ring)[id] && byId[id].span.id == id {
        var s :| s in ring && s.id == id;
        var i :| 0 <= i < |ring| && ring[i] == s;
        assert order[i] == id;
      }
    }

    /** Any id in the entry map is a ring span's, with that span's entry; and conversely. */
    lemma EntryOf(id: nat)
      requires Valid()
      ensures id in byId <==> id in IdSet(log[start..])
      ensures id in byId ==>
                && byId[id].span in log[start..] && byId[id].span.id == id && id in KeyMap(log, splitKeys)
                && byId[id] == EntryFor(log[start..], KeyMap(log, splitKeys), byId[id].span)
                && At(childSum, id) == ChildSum(log[start..], id)
      ensures forall s :: s in log[start..] && s.id == id ==> id in byId && byId[id].span == s
    {
      hide Inv, KeyMap, Mirrors;
      EntryIn(log[start..], KeyMap(log, splitKeys), id);
    }

    lemma EntryIn(ring: seq<WireSpan>, keys: map<nat, BucketKey>, id: nat)
      requires Mirrors(ring, keys)
      ensures id in byId <==> id in IdSet(ring)
      ensures id in byId ==>
                && byId[id].span in ring && byId[id].span.id == id && id in keys
                && byId[id] == EntryFor(ring, keys, byId[id].span) && At(childSum, id) == ChildSum(ring, id)
      ensures forall s :: s in ring && s.id == id ==> id in byId && byId[id].span == s
    {
      if id in byId {
        SumIn(ring, keys, id);
      }
      hide Mirrors, ChildSum;
      MirrorsIds(ring, keys);
      if id in byId {
        var i :| 0 <= i < |order| && order[i] == id;
        assert byId[order[i]] == EntryFor(ring, keys, ring[i]);
      }
      forall s | s in ring && s.id == id ensures id in byId && byId[id].span == s {
        var i :| 0 <= i < |ring| && ring[i] == s;
        assert order[i] == id;
      }
    }

    lemma SumIn(ring: seq<WireSpan>, keys: map<nat, BucketKey>, id: nat)
      requires Mirrors(ring, keys) && id in byId
      ensures At(childSum, id) == ChildSum(ring, id)
    {
      hide Indexed, Exact, ChildSum;
    }

    /** `collect_splits_for`: walk the parent chain in the ring, fields nearest the leaf first. */
    method CollectSplitsFor(id: nat, keys: set<string>) returns (out: Pairs)
      requires Valid()
      ensures out == WalkedSplits(ById(log[start..]), id, keys)
    {
      SpanMapOf(log[start..], KeyMap(log, splitKeys));
      hide Between, WalkedSplits, FieldMap, AsMap, Canon;
      WalkFromId(SpanMap(), id, keys);
      out := WalkUp(id, keys);
    }

    method WalkUp(id: nat, keys: set<string>) returns (out: Pairs)
      requires forall id :: id in byId ==> byId[id].span.id == id
      ensures out == Canon(Overlay(Climb(SpanMap(), Some(id), []), keys))
    {
      var acc: Pairs := [];
      var cursor := if id in byId then Some(byId[id]) else None;
      var depth := 0;
      ghost var m := SpanMap();
      ghost var got: seq<WireSpan> := [];
      while cursor.Some? && depth <= 64
        invariant Distinct(acc) && AsMap(acc) == Overlay(got, keys) && |got| == depth <= 65
        invariant cursor.Some? ==> cursor.value.span.id in byId && cursor.value == byId[cursor.value.span.id]
        invariant Climb(m, Some(id), []) ==
                  if cursor.Some? then Climb(m, Some(cursor.value.span.id), got) else got
        decreases 65 - depth
      {
        var entry := cursor.value;
        depth := depth + 1;
        OverlaySnoc(got, entry.span, keys);
        acc := TakeFields(entry.span.fields, keys, acc);
        got := got + [entry.span];
        var p := entry.span.parent;
        cursor := if p.Some? && p.value in byId then Some(byId[p.value]) else None;
      }
      out := SortByKey(acc);
      CanonUnique(out);
    }

    method Serialize() returns (snap: Snapshot)
      requires Valid()
      ensures snap == Snapshot(Ring(View()), pending, splitKeys, historyBudget)
    {
      var spans := RingSpans(log[start..], KeyMap(log, splitKeys));
      snap := Snapshot(spans, pending, splitKeys, historyBudget);
    }

    /** None of these spans has its parent in the ring. */
    ghost predicate Unplaced(ws: seq<WireSpan>)
      reads this`log, this`start
    {
      start <= |log| && forall w :: w in ws ==> w.parent.Some? && w.parent.value !in IdSet(log[start..])
    }

    method ParkOne(w: WireSpan, ghost more: seq<WireSpan>)
      requires Between([w] + more) && Unplaced([w] + more)
      modifies this`pending, this`pendingLen, this`lost
      ensures View() == Park(old(View()), w) && Between(more) && Unplaced(more)
    {
      hide Inv, Mirrored;
      assert w in [w] + more;
      ParkTurn(View(), w, more);
      ParkPending(w.parent.value, w);
      forall x | x in more ensures x in [w] + more {}
    }

    method ParkWaiters(ws: seq<WireSpan>, ghost rest: seq<WireSpan>)
      requires Between(ws + rest) && Unplaced(ws + rest) && HaveParents(ws + rest)
      modifies this`pending, this`pendingLen, this`lost
      ensures Between(rest) && Unplaced(rest) && HaveParents(rest)
      ensures ParkAll(View(), rest) == ParkAll(old(View()), ws + rest)
    {
      hide Inv, Tables, Unplaced, Park;
      WholeOf(ws, rest);
      for i := 0 to |ws|
        invariant Between(ws[i..] + rest) && Unplaced(ws[i..] + rest) && HaveParents(ws[i..] + rest)
        invariant ParkAll(View(), ws[i..] + rest) == ParkAll(old(View()), ws + rest)
      {
        NextOf(ws, i, rest);
        ghost var more := ws[i + 1..] + rest;
        assert ws[i..] + rest == [ws[i]] + more && ([ws[i]] + more)[0] == ws[i] && ([ws[i]] + more)[1..] == more;
        assert HaveParents(more) by { forall w | w in more ensures w in [ws[i]] + more {} }
        ParkOne(ws[i], more);
      }
    }

    /** Parks every list of `pool` again, lowest missing parent first. */
    method ParkPool(pool: Pool)
      requires Between(Flatten(pool)) && Unplaced(Flatten(pool)) && Keyed(pool)
      modifies this`pending, this`pendingLen, this`lost
      ensures HaveParents(Flatten(pool)) && View() == ParkAll(old(View()), Flatten(pool)) && Valid()
    {
      hide Inv, Tables, Unplaced, WaitersFor, PoolSpans;
      FlattenKeyed(pool);
      var left := pool;
      while left != map[]
        invariant Keyed(left) && Between(Flatten(left)) && Unplaced(Flatten(left))
        invariant HaveParents(Flatten(left)) && ParkAll(View(), Flatten(left)) == ParkAll(old(View()), Flatten(pool))
        decreases |left|
      {
        var k := Least(left.Keys);
        ParkWaiters(left[k], Flatten(left - {k}));
        left := left - {k};
      }
    }

    method PresetSplitKeys(keys: set<string>)
      requires Valid() && log == []
      modifies this`splitKeys
      ensures Valid() && splitKeys == keys
    {
      assert KeyMap(log, splitKeys) == KeyMap(log, keys) == map[];
      splitKeys := keys;
    }

    /** Absorbs the snapshot's spans in order, then parks its pool, lowest key first. */
    method Reload(spans: seq<WireSpan>, pool: Pool)
      requires Valid() && Keyed(pool) && Unused(View(), Closed(spans) + Flatten(pool))
      requires var d := Drain(View(), Closed(spans)); d.start <= |d.log| && pool.Keys !! IdSet(Ring(d))
      modifies this
      ensures HaveParents(Flatten(pool))
      ensures View() == ParkAll(Drain(old(View()), Closed(spans)), Flatten(pool)) && Valid()
      ensures splitKeys == old(splitKeys)
    {
      hide Inv, Mirrored, Drain, Flatten, ParkAll, Unused, Keyed;
      InvWindow(View(), []);
      InvIsWindowed(View());
      FlattenKeyed(pool);
      StillUnused(View(), Closed(spans), Flatten(pool));
      AbsorbAll(spans);
      Admit(View(), Flatten(pool));
      ParkPool(pool);
    }

    lemma InvIsWindowed(c: Core)
      requires Inv(c, [])
      ensures Windowed(c)
    {
    }

    /** Reads a snapshot: any spans and pool with distinct ids, each list keyed by its spans' parent,
        which is not among the spans that come into the ring. */
    static method Deserialize(snap: Snapshot) returns (agg: Aggregator)
      requires snap.historyBudget >= 1 && Keyed(snap.pending)
      requires Unused(Fresh(snap.historyBudget), Closed(snap.spansInOrder) + Flatten(snap.pending))
      requires var d := Drain(Fresh(snap.historyBudget), Closed(snap.spansInOrder));
               d.start <= |d.log| && snap.pending.Keys !! IdSet(Ring(d))
      ensures fresh(agg) && agg.Valid() && agg.splitKeys == snap.splitKeys && HaveParents(Flatten(snap.pending))
      ensures agg.View()
              == ParkAll(Drain(Fresh(snap.historyBudget), Closed(snap.spansInOrder)), Flatten(snap.pending))
    {
      hide Inv, Drain, Flatten, ParkAll, Unused, Keyed;
      agg := new Aggregator(snap.historyBudget);
      agg.PresetSplitKeys(snap.splitKeys);
      agg.Reload(snap.spansInOrder, snap.pending);
    }

    /** Saves `a` and reads it back.  With no evicted ancestor in the ring, order, entries, buckets,
        child sums, pool and split keys are those of `a`; otherwise the rows differ. */
    static method SaveAndRestore(a: Aggregator) returns (b: Aggregator)
      requires a.Valid()
      ensures fresh(b) && b.Valid() && b.splitKeys == a.splitKeys && b.View() == Restored(a.View())
      ensures AggregatorRows(b.View(), b.splitKeys) == AggregatorRows(a.View(), a.splitKeys)
              <==> Complete(Ring(a.View()))
      ensures Complete(Ring(a.View())) ==>
        && b.order == a.order && b.byId == a.byId && b.buckets == a.buckets
        && b.pending == a.pending && b.pendingLen == a.pendingLen
        && forall id :: At(b.childSum, id) == At(a.childSum, id)
    {
      hide Inv, KeyMap, Complete, Survivors, Flatten, ParkAll, Drain, Unused, Keyed;
      var snap := a.Serialize();
      ghost var c := a.View();
      SavedIsReadable(c);
      b := Deserialize(snap);
      RowsComeBackIff(c, a.splitKeys);
      if Complete(Ring(c)) {
        RoundTrip(c);
        EntriesComeBack(c, a.splitKeys);
        a.SameTables(b, Ring(c), KeyMap(a.log, a.splitKeys), KeyMap(b.log, b.splitKeys));
      }
    }

    /** Tables that mirror the same entries are the same. */
    lemma SameTables(b: Aggregator, ring: seq<WireSpan>, keys: map<nat, BucketKey>, others: map<nat, BucketKey>)
      requires Mirrors(ring, keys) && b.Mirrors(ring, others) && Entries(ring, keys) == Entries(ring, others)
      ensures b.order == order && b.byId == byId && b.buckets == buckets
      ensures forall id :: At(b.childSum, id) == At(childSum, id)
    {
      hide ChildSum, ExactAt;
      MirrorsIds(ring, keys);
      b.MirrorsIds(ring, others);
      ExactUnique(buckets, b.buckets, Entries(ring, keys));
      forall id | id in byId ensures b.byId[id] == byId[id] {
        var i :| 0 <= i < |order| && order[i] == id;
        assert byId[order[i]] == Entries(ring, keys)[i];
      }
    }
  }
}
