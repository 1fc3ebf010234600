/** Which ring entries outlive a re-bucketing, and what replaying a ring from scratch yields. */
module Survival {
  import opened Spans
  import opened Ledger
  import opened Forest

  /** `path` climbs from its first span to a root, each step to the named parent, inside `spans`. */
  ghost predicate Path(spans: seq<WireSpan>, path: seq<WireSpan>) {
    && path != [] && path[0] in spans
    && if |path| == 1 then path[0].parent == None
       else path[0].parent == Some(path[1].id) && Path(spans, path[1..])
  }

  /** The whole parent chain of `s` is in `spans`. */
  ghost predicate Rooted(spans: seq<WireSpan>, s: WireSpan) {
    exists path :: Path(spans, path) && path[0] == s
  }

  /** No span names a parent that stands at or after it. */
  ghost predicate Ordered(r: seq<WireSpan>) {
    forall i, j :: 0 <= i <= j < |r| ==> r[i].parent != Some(r[j].id)
  }

  /** Left to right, keep a root or a span whose parent was kept. */
  ghost function Survivors(r: seq<WireSpan>): seq<WireSpan> {
    if r == [] then []
    else
      var s := r[|r| - 1];
      var kept := Survivors(r[..|r| - 1]);
      if s.parent.None? || s.parent.value in IdSet(kept) then kept + [s] else kept
  }

  lemma SurvivorsSnoc(r: seq<WireSpan>, s: WireSpan)
    ensures Survivors(r + [s]) ==
            var kept := Survivors(r);
            if s.parent.None? || s.parent.value in IdSet(kept) then kept + [s] else kept
  {
    assert (r + [s])[..|r|] == r;
  }

  lemma {:induction false} PathWidens(a: seq<WireSpan>, b: seq<WireSpan>, path: seq<WireSpan>)
    requires Path(a, path) && forall s :: s in a ==> s in b
    ensures Path(b, path)
  {
    if |path| > 1 {
      PathWidens(a, b, path[1..]);
    }
  }

  /** A path that never climbs to `s` does not need it. */
  lemma {:induction false} PathNarrows(r: seq<WireSpan>, s: WireSpan, path: seq<WireSpan>)
    requires Path(r + [s], path) && path[0] in r
    requires forall t :: t in r ==> t.parent != Some(s.id)
    ensures Path(r, path)
  {
    if |path| > 1 {
      assert path[1] != s;
      assert path[1] in r + [s];
      PathNarrows(r, s, path[1..]);
    }
  }

  lemma OrderedSnoc(r: seq<WireSpan>, s: WireSpan)
    requires Ordered(r + [s])
    ensures Ordered(r) && s.parent != Some(s.id) && forall t :: t in r ==> t.parent != Some(s.id)
  {
    var all := r + [s];
    assert all[|r|] == s;
    forall i, j | 0 <= i <= j < |r| ensures r[i].parent != Some(r[j].id) {
      assert all[i] == r[i] && all[j] == r[j];
    }
    forall t | t in r ensures t.parent != Some(s.id) {
      var i :| 0 <= i < |r| && r[i] == t;
      assert all[i] == t;
    }
  }

  /** Re-bucketing keeps exactly the entries whose whole parent chain is still in the ring. */
  lemma {:induction false} SurvivesIffRooted(r: seq<WireSpan>, s: WireSpan)
    requires Ordered(r)
    ensures s in Survivors(r) <==> s in r && Rooted(r, s)
    decreases |r|, 0
  {
    if r == [] {
    } else {
      var r0, x := r[..|r| - 1], r[|r| - 1];
      assert r == r0 + [x];
      OrderedSnoc(r0, x);
      SurvivesIffRooted(r0, s);
      if s in Survivors(r0) {
        var path :| Path(r0, path) && path[0] == s;
        PathWidens(r0, r, path);
      } else if s in Survivors(r) {
        KeptIsRooted(r0, x);
      }
      if s in r && Rooted(r, s) {
        var path :| Path(r, path) && path[0] == s;
        if s in r0 {
          PathNarrows(r0, x, path);
        } else {
          RootedIsKept(r0, x, path);
        }
      }
    }
  }

  lemma KeptIsRooted(r: seq<WireSpan>, s: WireSpan)
    requires Ordered(r)
    requires s.parent.None? || s.parent.value in IdSet(Survivors(r))
    ensures Rooted(r + [s], s)
    decreases |r|, 1
  {
    if s.parent.None? {
      assert Path(r + [s], [s]);
    } else {
      var p :| p in Survivors(r) && p.id == s.parent.value;
      SurvivesIffRooted(r, p);
      var path :| Path(r, path) && path[0] == p;
      PathWidens(r, r + [s], path);
      assert ([s] + path)[1..] == path;
      assert Path(r + [s], [s] + path);
    }
  }

  lemma RootedIsKept(r: seq<WireSpan>, s: WireSpan, path: seq<WireSpan>)
    requires Ordered(r + [s]) && Path(r + [s], path) && path[0] == s
    ensures s.parent.None? || s.parent.value in IdSet(Survivors(r))
    decreases |r|, 1
  {
    OrderedSnoc(r, s);
    if |path| > 1 {
      assert path[1] in r + [s] && path[1].id != s.id;
      PathNarrows(r, s, path[1..]);
      assert path[1..][0] == path[1];
      SurvivesIffRooted(r, path[1]);
    }
  }

  lemma {:induction false} SurvivorsSubset(r: seq<WireSpan>)
    ensures multiset(Survivors(r)) <= multiset(r) && |Survivors(r)| <= |r|
  {
    if r == [] {
    } else {
      SurvivorsSubset(r[..|r| - 1]);
      assert r == r[..|r| - 1] + [r[|r| - 1]];
    }
  }

  lemma {:induction false} SurvivorsAreFewer(r: seq<WireSpan>)
    ensures |Survivors(r)| <= |r| && (|Survivors(r)| == |r| ==> Survivors(r) == r)
  {
    if r == [] {
    } else {
      SurvivorsAreFewer(r[..|r| - 1]);
      assert r == r[..|r| - 1] + [r[|r| - 1]];
    }
  }

  /** Every chain is complete: then nothing is dropped. */
  ghost predicate Complete(r: seq<WireSpan>) {
    forall s :: s in r ==> Rooted(r, s)
  }

  lemma CompleteIffAllSurvive(r: seq<WireSpan>)
    requires Ordered(r)
    ensures Survivors(r) == r <==> Complete(r)
  {
    if Survivors(r) == r {
      forall s | s in r ensures Rooted(r, s) { SurvivesIffRooted(r, s); }
    }
    if Complete(r) {
      forall s | s in r ensures s in Survivors(r) { SurvivesIffRooted(r, s); }
      AllKept(r);
    }
  }

  lemma {:induction false} AllKept(r: seq<WireSpan>)
    requires Ordered(r) && forall s :: s in r ==> s in Survivors(r)
    ensures Survivors(r) == r
  {
    if r == [] {
    } else {
      var r0, x := r[..|r| - 1], r[|r| - 1];
      assert r == r0 + [x];
      OrderedSnoc(r0, x);
      forall s | s in r ensures Rooted(r, s) { SurvivesIffRooted(r, s); }
      forall s | s in r0 ensures s in Survivors(r0) {
        assert s in r && Rooted(r, s);
        var path :| Path(r, path) && path[0] == s;
        PathNarrows(r0, x, path);
        SurvivesIffRooted(r0, s);
      }
      AllKept(r0);
      assert x in r && Rooted(r, x);
      var path :| Path(r, path) && path[0] == x;
      RootedIsKept(r0, x, path);
    }
  }

  // ── Replaying a ring through an empty aggregator ──

  ghost function Blank(c: Core): Core {
    Core(c.budget, c.cap, [], 0, map[], multiset{})
  }

  ghost predicate WaitingFrom(m: Pool, r: seq<WireSpan>) {
    forall k :: k in m ==> m[k] != [] && forall w :: w in m[k] ==> w in r && w.parent == Some(k)
  }

  /** Re-absorbing a ring from nothing keeps exactly the survivors, in order. */
  lemma {:induction false} Replay(c: Core, r: seq<WireSpan>)
    requires Ordered(r) && 1 <= c.budget && |r| <= c.budget
    ensures var d := Drain(Blank(c), r);
            && d.log == Survivors(r) && d.start == 0
            && WaitingFrom(d.pending, r)
            && (Survivors(r) == r ==> d.pending == map[] && d.lost == multiset{})
  {
    if r == [] {
    } else {
      var r0, s := r[..|r| - 1], r[|r| - 1];
      assert r == r0 + [s];
      OrderedSnoc(r0, s);
      Replay(c, r0);
      DrainConcat(Blank(c), r0, [s]);
      SurvivorsSubset(r0);
      ReplayStep(Drain(Blank(c), r0), r0, s);
    }
  }

  lemma ReplayStep(d: Core, r: seq<WireSpan>, s: WireSpan)
    requires Windowed(d) && d.log == Survivors(r) && d.start == 0 && |d.log| < d.budget
    requires WaitingFrom(d.pending, r) && forall t :: t in r ==> t.parent != Some(s.id)
    requires Survivors(r) == r ==> d.pending == map[] && d.lost == multiset{}
    ensures var e := Drain(d, [s]);
            && e.log == Survivors(r + [s]) && e.start == 0
            && WaitingFrom(e.pending, r + [s])
            && (Survivors(r + [s]) == r + [s] ==> e.pending == map[] && e.lost == multiset{})
  {
    SurvivorsSnoc(r, s);
    SurvivorsSubset(r);
    assert Ring(d) == d.log && [s][1..] == [];
    if Resolvable(d, s) {
      forall k | k in d.pending ensures k != s.id {
        var w := d.pending[k][0];
        assert w in d.pending[k] && w in r;
      }
      assert d.pending - {s.id} == d.pending;
      assert Waiters(d.pending, s.id) + [] == [];
    } else {
      Enqueued(d, r, s);
    }
  }

  lemma Enqueued(d: Core, r: seq<WireSpan>, s: WireSpan)
    requires WaitingFrom(d.pending, r) && s.parent.Some?
    ensures WaitingFrom(Park(d, s).pending, r + [s])
  {
    var p := s.parent.value;
    var m := Enqueue(d.pending, p, s);
    TrimFacts(m, d.cap);
    forall k | k in m ensures m[k] != [] && forall w :: w in m[k] ==> w in r + [s] && w.parent == Some(k) {
      if k == p {
        forall w | w in m[k] ensures w in r + [s] && w.parent == Some(k) {
          assert w in Waiters(d.pending, p) || w == s;
        }
      }
    }
  }

  /** The state after re-bucketing: only the survivors are logged, the pool is as it was. */
  ghost function Regroup(c: Core): Core
    requires c.start <= |c.log|
  {
    var kept := Survivors(Ring(c));
    c.(log := kept, start := 0,
       lost := c.lost + multiset(c.log[..c.start]) + (multiset(Ring(c)) - multiset(kept)))
  }

  /** In a reachable state children stand after their parents. */
  lemma RingOrdered(c: Core)
    requires Inv(c, [])
    ensures Ordered(Ring(c))
  {
    assert ParentsFirst(c.log);
    forall i, j | 0 <= i < j < |c.log| ensures c.log[i].id != c.log[j].id { LogDistinct(c, [], i, j); }
    LogOrdered(c.log, c.start);
  }

  /** The evicted front never has a parent still in the ring, and nothing waits for it. */
  lemma NoSurvivingParent(c: Core)
    requires Inv(c, []) && Ring(c) != []
    ensures Ring(c)[0].parent.Some? ==> Ring(c)[0].parent.value !in IdSet(Ring(c))
    ensures Ring(c)[0].id !in c.pending
  {
    RingOrdered(c);
    var r := Ring(c);
    assert r[0] in r && r[0].id in IdSet(r);
    forall s | s in r ensures r[0].parent != Some(s.id) {
      var j :| 0 <= j < |r| && r[j] == s;
    }
  }

  /** So eviction changes no surviving entry: not its bucket, not its self time. */
  lemma EvictionIsQuiet(c: Core, keys: map<nat, BucketKey>)
    requires Inv(c, []) && Ring(c) != [] && IdSet(Ring(c)) <= keys.Keys
    ensures IdSet(Ring(c)[1..]) <= keys.Keys
    ensures Entries(Ring(c)[1..], keys) == Entries(Ring(c), keys)[1..]
  {
    var r := Ring(c);
    NoSurvivingParent(c);
    FrontLeaves(r, keys);
    if r[0].parent.Some? {
      forall i | 1 <= i < |r| ensures Entries(r, keys)[i].span.id != r[0].parent.value {
        EntriesAt(r, keys, i);
        assert r[i].id in IdSet(r);
      }
      RestatedAbsent(Entries(r, keys)[1..], r[0].parent.value, ChildSum(r[1..], r[0].parent.value));
    }
  }

  lemma LogOrdered(log: seq<WireSpan>, from: nat)
    requires ParentsFirst(log) && from <= |log|
    requires forall i, j :: 0 <= i < j < |log| ==> log[i].id != log[j].id
    ensures Ordered(log[from..])
  {
    var r := log[from..];
    forall i, j | 0 <= i <= j < |r| ensures r[i].parent != Some(r[j].id) {
      var a := from + i;
      if log[a].parent.Some? {
        var s :| s in log[..a] && s.id == log[a].parent.value;
        var k :| 0 <= k < a && log[k] == s;
      }
    }
  }

  lemma LogDistinct(c: Core, work: seq<WireSpan>, i: nat, j: nat)
    requires Inv(c, work) && i < j < |c.log|
    ensures c.log[i].id != c.log[j].id
  {
    var bag := Everything(c) + multiset(work);
    var s, t := c.log[i], c.log[j];
    assert c.log == c.log[..j] + [t] + c.log[j + 1..];
    assert s in c.log[..j];
    assert multiset(c.log) == multiset(c.log[..j]) + multiset{t} + multiset(c.log[j + 1..]);
    assert s in bag && t in bag && (s == t ==> bag[s] >= 2);
  }

  lemma UniqueSub(part: multiset<WireSpan>, bag: multiset<WireSpan>)
    requires UniqueIds(bag) && part <= bag
    ensures UniqueIds(part)
  {
    forall s | s in part ensures part[s] == 1 && s in bag {}
  }

  lemma BlankAdmits(c: Core, work: seq<WireSpan>)
    requires c.budget >= 1 && UniqueIds(multiset(work)) && AllClosed(work)
    ensures Inv(Blank(c), work)
  {
    assert Everything(Blank(c)) + multiset(work) == multiset(work);
  }

  lemma BlankInv(c: Core)
    requires Inv(c, [])
    ensures Inv(Blank(c), Ring(c))
  {
    assert AllClosed(c.log) && UniqueIds(Everything(c) + multiset([]));
    hide Inv, UniqueIds;
    var r := Ring(c);
    assert c.log == c.log[..c.start] + r;
    UniqueSub(multiset(r), Everything(c) + multiset([]));
    forall s | s in r ensures s.closedAt.Some? { assert s in c.log; }
    BlankAdmits(c, r);
  }

  lemma RegroupKeeps(c: Core)
    requires Inv(c, [])
    ensures Windowed(c) && Inv(Regroup(c), []) && Everything(Regroup(c)) == Everything(c)
    ensures var d := Drain(Blank(c), Ring(c));
            Regroup(c) == Core(c.budget, c.cap, d.log, d.start, c.pending, Regroup(c).lost)
  {
    var r := Ring(c);
    RingOrdered(c);
    BlankInv(c);
    assert Windowed(c);
    Replay(c, r);
    assert r + [] == r;
    DrainKeeps(Blank(c), r, []);
    RegroupConserves(c);
    RegroupKeyed(c);
    SurvivorsSubset(r);
  }

  lemma RegroupConserves(c: Core)
    requires c.start <= |c.log|
    ensures Everything(Regroup(c)) == Everything(c)
  {
    var r := Ring(c);
    SurvivorsSubset(r);
    assert c.log == c.log[..c.start] + r;
    assert multiset(c.log) == multiset(c.log[..c.start]) + multiset(r);
    SubBag(multiset(Survivors(r)), multiset(r));
  }

  lemma RegroupKeyed(c: Core)
    requires c.start <= |c.log| && PoolKeyed(c)
    ensures PoolKeyed(Regroup(c))
  {
    var r := Ring(c);
    SurvivorsSubset(r);
    assert Ring(Regroup(c)) == Survivors(r);
    forall s | s in Survivors(r) ensures s in r { assert s in multiset(Survivors(r)); }
    assert IdSet(Survivors(r)) <= IdSet(r);
    forall k | k in c.pending ensures WaitersFor(k, c.pending[k]) && k !in IdSet(Survivors(r)) {
      assert k !in IdSet(r);
    }
  }
}
