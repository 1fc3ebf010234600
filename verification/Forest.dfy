/** What the aggregator remembers, stripped of every derived table: the insertion log, the window
    of it that is still in the ring, and the pool of spans waiting for a parent.  `Drain` is a
    worklist; the aggregator's recursion must agree with it. */
module Forest {
  import opened Spans
  import opened Buckets

  type Pool = map<nat, seq<WireSpan>>

  /** `lost` collects the spans that left for good by any way other than ring eviction. */
  datatype Core = Core(
    budget: nat, cap: nat, log: seq<WireSpan>, start: nat, pending: Pool, lost: multiset<WireSpan>)

  function Fresh(budget: nat): Core {
    Core(budget, if budget / 4 < 1 then 1 else budget / 4, [], 0, map[], multiset{})
  }

  ghost predicate Windowed(c: Core) {
    c.start <= |c.log| && 1 <= c.budget && |c.log| - c.start <= c.budget
  }

  ghost function Ring(c: Core): seq<WireSpan>
    requires c.start <= |c.log|
  {
    c.log[c.start..]
  }

  // ── The pool as a bag of spans ──

  ghost function PoolSpans(m: Pool): multiset<WireSpan>
    decreases |m|
  {
    if m == map[] then multiset{}
    else
      var k := Least(m.Keys);
      multiset(m[k]) + PoolSpans(m - {k})
  }

  ghost function PoolSize(m: Pool): nat {
    |PoolSpans(m)|
  }

  function Waiters(m: Pool, k: nat): seq<WireSpan> {
    if k in m then m[k] else []
  }

  lemma PoolFirst(m: Pool, l: nat)
    requires IsLeast(l, m.Keys)
    ensures PoolSpans(m) == multiset(m[l]) + PoolSpans(m - {l})
  {
    assert Least(m.Keys) == l;
  }

  lemma {:induction false} PoolWithout(m: Pool, k: nat)
    ensures PoolSpans(m) == multiset(Waiters(m, k)) + PoolSpans(m - {k})
    decreases |m|
  {
    hide PoolSpans;
    if k !in m {
      assert m - {k} == m;
    } else {
      var l := Least(m.Keys);
      PoolFirst(m, l);
      if l != k {
        PoolFirst(m - {k}, l);
        PoolWithout(m - {l}, k);
        assert (m - {l}) - {k} == (m - {k}) - {l};
      }
    }
  }

  lemma PoolWith(m: Pool, k: nat, ws: seq<WireSpan>)
    ensures PoolSpans(m[k := ws]) == multiset(ws) + PoolSpans(m - {k})
  {
    PoolWithout(m[k := ws], k);
    assert m[k := ws] - {k} == m - {k};
  }

  function Enqueue(m: Pool, p: nat, s: WireSpan): Pool {
    m[p := Waiters(m, p) + [s]]
  }

  lemma EnqueueSpans(m: Pool, p: nat, s: WireSpan)
    ensures PoolSpans(Enqueue(m, p, s)) == PoolSpans(m) + multiset{s}
  {
    PoolWith(m, p, Waiters(m, p) + [s]);
    PoolWithout(m, p);
  }

  /** Overflow: drop whole waiting lists, lowest missing parent first, until the pool fits. */
  ghost function Trim(m: Pool, cap: nat): Pool
    decreases |m|
  {
    if PoolSize(m) <= cap then m else Trim(m - {Least(m.Keys)}, cap)
  }

  lemma {:induction false} TrimFacts(m: Pool, cap: nat)
    ensures PoolSize(Trim(m, cap)) <= cap
    ensures PoolSpans(Trim(m, cap)) <= PoolSpans(m)
    ensures forall k :: k in Trim(m, cap) ==> k in m && Trim(m, cap)[k] == m[k]
    decreases |m|
  {
    if PoolSize(m) > cap {
      PoolWithout(m, Least(m.Keys));
      TrimFacts(m - {Least(m.Keys)}, cap);
    }
  }

  /** What is dropped lies below what is kept ... */
  lemma {:induction false} TrimDropsLowest(m: Pool, cap: nat, d: nat, k: nat)
    requires d in m && d !in Trim(m, cap) && k in Trim(m, cap)
    ensures d < k
    decreases |m|
  {
    if PoolSize(m) > cap {
      TrimFacts(m - {Least(m.Keys)}, cap);
      if d != Least(m.Keys) {
        TrimDropsLowest(m - {Least(m.Keys)}, cap, d, k);
      }
    }
  }

  /** ... and no more is dropped than has to be: the last list dropped would not have fitted. */
  lemma {:induction false} TrimStopsInTime(m: Pool, cap: nat)
    ensures Trim(m, cap) != m ==>
      exists d :: d in m && d !in Trim(m, cap) && PoolSize(Trim(m, cap)[d := m[d]]) > cap
    decreases |m|
  {
    if PoolSize(m) > cap {
      var l := Least(m.Keys);
      var rest := m - {l};
      assert m != map[];
      TrimFacts(rest, cap);
      if Trim(rest, cap) == rest {
        assert rest[l := m[l]] == m;
      } else {
        TrimStopsInTime(rest, cap);
      }
    }
  }

  /** The pool holds a quarter of the budget, at least one span. */
  lemma PoolCapIs(budget: nat)
    ensures var cap := Fresh(budget).cap;
            cap >= 1 && 4 * cap <= (if budget < 4 then 4 else budget) < 4 * cap + 4
  {
  }

  // ── One span's turn ──

  ghost predicate Resolvable(c: Core, s: WireSpan)
    requires c.start <= |c.log|
  {
    s.parent.None? || s.parent.value in IdSet(Ring(c))
  }

  ghost function Park(c: Core, s: WireSpan): Core
    requires s.parent.Some?
  {
    var m := Enqueue(c.pending, s.parent.value, s);
    var t := Trim(m, c.cap);
    c.(pending := t, lost := c.lost + (PoolSpans(m) - PoolSpans(t)))
  }

  /** Append to the log, slide the window, release the waiters of this id. */
  ghost function Commit(c: Core, s: WireSpan): (r: Core)
    requires Windowed(c)
    ensures Windowed(r)
  {
    c.(log := c.log + [s],
       start := if |c.log| + 1 - c.start > c.budget then |c.log| + 1 - c.budget else c.start,
       pending := c.pending - {s.id})
  }

  lemma ParkSize(c: Core, s: WireSpan)
    requires s.parent.Some?
    ensures PoolSize(Park(c, s).pending) <= PoolSize(c.pending) + 1
  {
    var m := Enqueue(c.pending, s.parent.value, s);
    EnqueueSpans(c.pending, s.parent.value, s);
    TrimFacts(m, c.cap);
    SubBag(PoolSpans(Trim(m, c.cap)), PoolSpans(m));
  }

  lemma SubBag<T>(a: multiset<T>, b: multiset<T>)
    requires a <= b
    ensures |a| <= |b| && b == a + (b - a)
  {
    assert b == a + (b - a);
  }

  /** Work is taken in order; the waiters a span releases go before the rest. */
  ghost function Drain(c: Core, work: seq<WireSpan>): (r: Core)
    requires Windowed(c)
    ensures Windowed(r) && r.budget == c.budget && r.cap == c.cap
    decreases PoolSize(c.pending) + |work|, |work|
  {
    if work == [] then c
    else
      var s, rest := work[0], work[1..];
      if Resolvable(c, s) then
        PoolWithout(c.pending, s.id);
        Drain(Commit(c, s), Waiters(c.pending, s.id) + rest)
      else
        ParkSize(c, s);
        Drain(Park(c, s), rest)
  }

  /** The worklist may be cut anywhere: what the recursion does span by span is the same drain. */
  lemma {:induction false} DrainConcat(c: Core, a: seq<WireSpan>, b: seq<WireSpan>)
    requires Windowed(c)
    ensures Drain(c, a + b) == Drain(Drain(c, a), b)
    decreases PoolSize(c.pending) + |a|, |a|
  {
    if a == [] {
      assert a + b == b;
    } else {
      var s := a[0];
      assert (a + b)[0] == s && (a + b)[1..] == a[1..] + b;
      if Resolvable(c, s) {
        PoolWithout(c.pending, s.id);
        var ws := Waiters(c.pending, s.id);
        assert ws + (a[1..] + b) == (ws + a[1..]) + b;
        DrainConcat(Commit(c, s), ws + a[1..], b);
      } else {
        ParkSize(c, s);
        DrainConcat(Park(c, s), a[1..], b);
      }
    }
  }

  lemma DrainNothing(c: Core)
    requires Windowed(c)
    ensures Drain(c, []) == c
  {
  }

  /** One turn that parks while there is room ... */
  lemma DrainParks(c: Core, s: WireSpan, rest: seq<WireSpan>)
    requires Windowed(c) && !Resolvable(c, s) && PoolSize(c.pending) < c.cap
    ensures Drain(c, [s] + rest) == Drain(c.(pending := Enqueue(c.pending, s.parent.value, s)), rest)
    ensures PoolSize(Enqueue(c.pending, s.parent.value, s)) == PoolSize(c.pending) + 1
  {
    var m := Enqueue(c.pending, s.parent.value, s);
    EnqueueSpans(c.pending, s.parent.value, s);
    assert Trim(m, c.cap) == m && PoolSpans(m) - PoolSpans(m) == multiset{} && c.lost + multiset{} == c.lost;
    assert ([s] + rest)[1..] == rest;
  }

  /** ... and one that commits. */
  lemma DrainCommits(c: Core, s: WireSpan, rest: seq<WireSpan>)
    requires Windowed(c) && Resolvable(c, s)
    ensures Drain(c, [s] + rest) == Drain(Commit(c, s), Waiters(c.pending, s.id) + rest)
    ensures PoolSize(c.pending) == PoolSize(Commit(c, s).pending) + |Waiters(c.pending, s.id)|
  {
    PoolWithout(c.pending, s.id);
    assert ([s] + rest)[1..] == rest;
  }

  /** A resolvable span that nothing waits for. */
  lemma DrainPlaces(c: Core, s: WireSpan, rest: seq<WireSpan>, d: Core)
    requires Windowed(c) && Resolvable(c, s) && s.id !in c.pending && d == Commit(c, s)
    ensures Drain(c, [s] + rest) == Drain(d, rest)
  {
    DrainCommits(c, s, rest);
    assert Waiters(c.pending, s.id) + rest == rest;
  }

  /** The measure behind the recursive drain: the pool grows by at most one per span handed in. */
  lemma {:induction false} DrainPool(c: Core, work: seq<WireSpan>)
    requires Windowed(c)
    ensures PoolSize(Drain(c, work).pending) <= PoolSize(c.pending) + |work|
    decreases PoolSize(c.pending) + |work|, |work|
  {
    if work == [] {
    } else {
      var s, rest := work[0], work[1..];
      if Resolvable(c, s) {
        PoolWithout(c.pending, s.id);
        DrainPool(Commit(c, s), Waiters(c.pending, s.id) + rest);
      } else {
        ParkSize(c, s);
        DrainPool(Park(c, s), rest);
      }
    }
  }

  lemma {:induction false} DrainAppends(c: Core, work: seq<WireSpan>)
    requires Windowed(c)
    ensures c.log <= Drain(c, work).log && c.start <= Drain(c, work).start
    decreases PoolSize(c.pending) + |work|, |work|
  {
    if work == [] {
    } else {
      var s, rest := work[0], work[1..];
      if Resolvable(c, s) {
        PoolWithout(c.pending, s.id);
        DrainAppends(Commit(c, s), Waiters(c.pending, s.id) + rest);
      } else {
        ParkSize(c, s);
        DrainAppends(Park(c, s), rest);
      }
    }
  }

  // ── Conservation ──

  /** Every span ever handed in: logged (in the ring or evicted from it), parked, or lost. */
  ghost function Everything(c: Core): multiset<WireSpan> {
    multiset(c.log) + PoolSpans(c.pending) + c.lost
  }

  /** Draining neither invents nor forgets a span. */
  lemma {:induction false} Conservation(c: Core, work: seq<WireSpan>)
    requires Windowed(c)
    ensures Everything(Drain(c, work)) == Everything(c) + multiset(work)
    decreases PoolSize(c.pending) + |work|, |work|
  {
    if work == [] {
    } else {
      var s, rest := work[0], work[1..];
      assert work == [s] + rest;
      if Resolvable(c, s) {
        CommitConserves(c, s, rest);
        PoolWithout(c.pending, s.id);
        Conservation(Commit(c, s), Waiters(c.pending, s.id) + rest);
      } else {
        ParkConserves(c, s);
        ParkSize(c, s);
        Conservation(Park(c, s), rest);
      }
    }
  }

  lemma CommitConserves(c: Core, s: WireSpan, rest: seq<WireSpan>)
    requires Windowed(c)
    ensures Everything(Commit(c, s)) + multiset(Waiters(c.pending, s.id) + rest) ==
            Everything(c) + multiset([s] + rest)
  {
    PoolWithout(c.pending, s.id);
  }

  lemma ParkConserves(c: Core, s: WireSpan)
    requires s.parent.Some?
    ensures Everything(Park(c, s)) == Everything(c) + multiset{s}
  {
    var m := Enqueue(c.pending, s.parent.value, s);
    EnqueueSpans(c.pending, s.parent.value, s);
    TrimFacts(m, c.cap);
    SubBag(PoolSpans(Trim(m, c.cap)), PoolSpans(m));
  }

  // ── What every run keeps ──

  /** No two spans of the bag share an id, and none occurs twice. */
  ghost predicate UniqueIds(bag: multiset<WireSpan>) {
    && (forall s :: s in bag ==> bag[s] == 1)
    && (forall s, t :: s in bag && t in bag && s.id == t.id ==> s == t)
  }

  ghost predicate ParentsFirst(log: seq<WireSpan>) {
    forall i :: 0 <= i < |log| && log[i].parent.Some? ==> log[i].parent.value in IdSet(log[..i])
  }

  ghost predicate WaitersFor(k: nat, ws: seq<WireSpan>) {
    ws != [] && forall i :: 0 <= i < |ws| ==> ws[i].parent == Some(k) && ws[i].closedAt.Some?
  }

  ghost predicate PoolKeyed(c: Core)
    requires c.start <= |c.log|
  {
    forall k :: k in c.pending ==> WaitersFor(k, c.pending[k]) && k !in IdSet(Ring(c))
  }

  ghost predicate AllClosed(spans: seq<WireSpan>) {
    forall s :: s in spans ==> s.closedAt.Some?
  }

  /** Holds between any two spans' turns, `work` being the spans taken out of the pool or handed
      in and not yet placed. */
  ghost predicate Inv(c: Core, work: seq<WireSpan>) {
    && Windowed(c)
    && UniqueIds(Everything(c) + multiset(work))
    && ParentsFirst(c.log)
    && AllClosed(c.log) && AllClosed(work)
    && PoolKeyed(c)
    && PoolSize(c.pending) <= c.cap
  }

  lemma RingIds(c: Core, id: nat)
    requires c.start <= |c.log| && id in IdSet(Ring(c))
    ensures id in IdSet(c.log)
  {
    var s :| s in Ring(c) && s.id == id;
    assert s in c.log;
  }

  lemma CommitKeeps(c: Core, s: WireSpan, rest: seq<WireSpan>)
    requires Inv(c, [s] + rest) && Resolvable(c, s)
    ensures Inv(Commit(c, s), Waiters(c.pending, s.id) + rest)
  {
    CommitConserves(c, s, rest);
    PoolWithout(c.pending, s.id);
    SubBag(PoolSpans(c.pending - {s.id}), PoolSpans(c.pending));
    CommitParentsFirst(c, s);
    CommitKeyed(c, s);
    var ws := Waiters(c.pending, s.id);
    forall t | t in ws + rest ensures t.closedAt.Some? {
      if t in ws {
        assert WaitersFor(s.id, c.pending[s.id]);
      } else {
        assert t in [s] + rest;
      }
    }
    assert s in [s] + rest;
  }

  lemma CommitParentsFirst(c: Core, s: WireSpan)
    requires Windowed(c) && ParentsFirst(c.log) && Resolvable(c, s)
    ensures ParentsFirst(Commit(c, s).log)
  {
    var log := c.log + [s];
    forall i | 0 <= i < |log| && log[i].parent.Some?
      ensures log[i].parent.value in IdSet(log[..i])
    {
      if i < |c.log| {
        assert log[..i] == c.log[..i];
      } else {
        assert log[..i] == c.log;
        RingIds(c, s.parent.value);
      }
    }
  }

  lemma CommitKeyed(c: Core, s: WireSpan)
    requires Windowed(c) && PoolKeyed(c)
    ensures PoolKeyed(Commit(c, s))
  {
    var c' := Commit(c, s);
    forall x | x in Ring(c') && x != s ensures x in Ring(c) {
      var i :| c'.start <= i < |c'.log| && c'.log[i] == x;
      assert Ring(c)[i - c.start] == x;
    }
    assert IdSet(Ring(c')) <= IdSet(Ring(c)) + {s.id};
    forall k | k in c'.pending ensures WaitersFor(k, c'.pending[k]) && k !in IdSet(Ring(c')) {
      assert WaitersFor(k, c.pending[k]) && k !in IdSet(Ring(c));
    }
  }

  lemma ParkKeeps(c: Core, s: WireSpan, rest: seq<WireSpan>)
    requires Inv(c, [s] + rest) && !Resolvable(c, s)
    ensures Inv(Park(c, s), rest)
  {
    ParkConserves(c, s);
    assert s in [s] + rest && forall t :: t in rest ==> t in [s] + rest;
    ParkKeyed(c, s);
    TrimFacts(Enqueue(c.pending, s.parent.value, s), c.cap);
    assert Everything(c) + multiset([s] + rest) == Everything(Park(c, s)) + multiset(rest);
  }

  lemma EnqueueKeyed(m: Pool, p: nat, s: WireSpan, k: nat)
    requires s.parent == Some(p) && s.closedAt.Some? && k in Enqueue(m, p, s)
    requires k in m ==> WaitersFor(k, m[k])
    ensures WaitersFor(k, Enqueue(m, p, s)[k])
  {
  }

  lemma ParkKeyed(c: Core, s: WireSpan)
    requires Windowed(c) && PoolKeyed(c) && !Resolvable(c, s) && s.closedAt.Some?
    ensures PoolKeyed(Park(c, s))
  {
    hide WaitersFor, PoolSpans, Trim;
    var p := s.parent.value;
    TrimFacts(Enqueue(c.pending, p, s), c.cap);
    forall k | k in Park(c, s).pending ensures WaitersFor(k, Park(c, s).pending[k]) && k !in IdSet(Ring(c)) {
      EnqueueKeyed(c.pending, p, s, k);
    }
  }

  lemma InvWindow(c: Core, work: seq<WireSpan>)
    requires Inv(c, work)
    ensures c.start <= |c.log|
  {
  }

  /** One turn of the worklist keeps the invariant, whatever else is still in flight. */
  lemma TurnKeeps(c: Core, work: seq<WireSpan>, rest: seq<WireSpan>)
    requires Inv(c, work + rest) && work != []
    ensures if Resolvable(c, work[0])
            then Inv(Commit(c, work[0]), (Waiters(c.pending, work[0].id) + work[1..]) + rest)
            else Inv(Park(c, work[0]), work[1..] + rest)
  {
    hide Inv, Commit, Park, Windowed;
    var s, more := work[0], work[1..];
    assert work + rest == [s] + (more + rest);
    InvWindow(c, work + rest);
    if Resolvable(c, s) {
      CommitKeeps(c, s, more + rest);
      var ws := Waiters(c.pending, s.id);
      assert ws + (more + rest) == (ws + more) + rest;
    } else {
      ParkKeeps(c, s, more + rest);
    }
  }

  /** Draining any work keeps the invariant, whatever else is in flight. */
  lemma {:induction false} DrainKeeps(c: Core, work: seq<WireSpan>, rest: seq<WireSpan>)
    requires Inv(c, work + rest)
    ensures Inv(Drain(c, work), rest)
    decreases PoolSize(c.pending) + |work|, |work|
  {
    if work == [] {
      assert work + rest == rest;
    } else {
      TurnKeeps(c, work, rest);
      var s := work[0];
      if Resolvable(c, s) {
        PoolWithout(c.pending, s.id);
        DrainKeeps(Commit(c, s), Waiters(c.pending, s.id) + work[1..], rest);
      } else {
        ParkSize(c, s);
        DrainKeeps(Park(c, s), work[1..], rest);
      }
    }
  }

  /** No logged span has this id or names it as parent, and neither does `s` itself. */
  ghost predicate NewTo(log: seq<WireSpan>, s: WireSpan) {
    s.id !in IdSet(log) && s.parent != Some(s.id) && forall t :: t in log ==> t.parent != Some(s.id)
  }

  lemma ResolvableIsNew(c: Core, s: WireSpan, rest: seq<WireSpan>)
    requires Inv(c, [s] + rest) && Resolvable(c, s)
    ensures NewTo(c.log, s)
  {
    InFlightIsNew(c, s, rest);
    if s.parent.Some? {
      RingIds(c, s.parent.value);
    }
  }

  /** A span in flight is new to the log, and nothing in the log names it as parent. */
  lemma InFlightIsNew(c: Core, s: WireSpan, rest: seq<WireSpan>)
    requires Inv(c, [s] + rest)
    ensures s.id !in IdSet(c.log)
    ensures forall t :: t in c.log ==> t.parent != Some(s.id)
  {
    forall t | t in c.log ensures t.id != s.id {
      var bag := Everything(c) + multiset([s] + rest);
      assert s in [s] + rest && t in multiset(c.log);
      assert t in bag && s in bag && (t == s ==> bag[s] >= 2);
    }
    forall t | t in c.log ensures t.parent != Some(s.id) {
      var i :| 0 <= i < |c.log| && c.log[i] == t;
      if t.parent.Some? {
        var u :| u in c.log[..i] && u.id == t.parent.value;
        assert u in c.log;
      }
    }
  }

  /** What one call of the recursive absorption rests on when it parks its span ... */
  lemma ParkTurn(c: Core, s: WireSpan, rest: seq<WireSpan>)
    requires Inv(c, [s] + rest) && !Resolvable(c, s)
    ensures Drain(c, [s]) == Park(c, s) && Inv(Park(c, s), rest)
  {
    assert [s][1..] == [];
    ParkKeeps(c, s, rest);
    assert Drain(Park(c, s), []) == Park(c, s);
  }

  /** ... and when it commits it. */
  lemma CommitTurn(c: Core, s: WireSpan, rest: seq<WireSpan>)
    requires Inv(c, [s] + rest) && Resolvable(c, s)
    ensures Windowed(c) && PoolKeyed(c) && NewTo(c.log, s)
    ensures Drain(c, [s]) == Drain(Commit(c, s), Waiters(c.pending, s.id))
    ensures Inv(Commit(c, s), Waiters(c.pending, s.id) + rest)
    ensures PoolSize(c.pending) == PoolSize(Commit(c, s).pending) + |Waiters(c.pending, s.id)|
  {
    assert [s][1..] == [] && Waiters(c.pending, s.id) + [] == Waiters(c.pending, s.id);
    ResolvableIsNew(c, s, rest);
    CommitKeeps(c, s, rest);
    PoolWithout(c.pending, s.id);
  }

  /** The closed spans of a batch: open ones are discarded on arrival. */
  function Closed(batch: seq<WireSpan>): seq<WireSpan> {
    if batch == [] then []
    else (if batch[0].closedAt.Some? then [batch[0]] else []) + Closed(batch[1..])
  }

  lemma {:induction false} ClosedConcat(a: seq<WireSpan>, b: seq<WireSpan>)
    ensures Closed(a + b) == Closed(a) + Closed(b)
  {
    hide Closed;
    if a == [] {
      assert a + b == b && Closed([]) == [] by { ClosedNone(); }
    } else {
      ClosedConcat(a[1..], b);
      ClosedCons(a[0], a[1..] + b);
      ClosedCons(a[0], a[1..]);
      assert a == [a[0]] + a[1..] && a + b == [a[0]] + (a[1..] + b);
    }
  }

  lemma ClosedNone()
    ensures Closed([]) == []
  {
  }

  lemma ClosedCons(s: WireSpan, rest: seq<WireSpan>)
    ensures Closed([s] + rest) == (if s.closedAt.Some? then [s] else []) + Closed(rest)
  {
    assert ([s] + rest)[1..] == rest;
  }

  lemma {:induction false} ClosedKeepsAll(spans: seq<WireSpan>)
    requires AllClosed(spans)
    ensures Closed(spans) == spans
  {
    if spans == [] {
    } else {
      assert spans[0] in spans && spans == [spans[0]] + spans[1..];
      forall s | s in spans[1..] ensures s in spans {}
      ClosedKeepsAll(spans[1..]);
    }
  }

  /** Absorbing the first of some unused spans leaves the others unused. */
  lemma StillUnused(c: Core, first: seq<WireSpan>, rest: seq<WireSpan>)
    requires Windowed(c) && Unused(c, first + rest)
    ensures Unused(c, first) && Unused(Drain(c, first), rest)
  {
    Conservation(c, first);
    var all := Everything(c) + multiset(first + rest);
    assert all == Everything(Drain(c, first)) + multiset(rest);
    forall s | s in Everything(c) + multiset(first)
      ensures s in all && (Everything(c) + multiset(first))[s] == 1
    {
    }
  }

  /** What one more span of an unused batch rests on. */
  lemma NextArrival(c: Core, d: Core, batch: seq<WireSpan>, i: nat)
    requires i < |batch| && Windowed(c) && Windowed(d) && d == Drain(c, Closed(batch[..i]))
    requires Unused(d, Closed(batch[i..]))
    ensures var s := batch[i]; var e := Drain(d, Closed([s]));
            && (s.closedAt.Some? ==> Unused(d, [s])) && e == Drain(c, Closed(batch[..i + 1]))
            && Unused(e, Closed(batch[i + 1..])) && d.log <= e.log && d.start <= e.start
  {
    hide Drain, Unused, Closed;
    var s := batch[i];
    assert batch[i..] == [s] + batch[i + 1..] && batch[..i + 1] == batch[..i] + [s];
    ClosedConcat([s], batch[i + 1..]);
    ClosedConcat(batch[..i], [s]);
    StillUnused(d, Closed([s]), Closed(batch[i + 1..]));
    DrainConcat(c, Closed(batch[..i]), Closed([s]));
    DrainAppends(d, Closed([s]));
    ClosedCons(s, []);
    ClosedNone();
    assert [s] + [] == [s];
  }

  /** None of these ids was ever handed in, and they are pairwise distinct. */
  ghost predicate Unused(c: Core, spans: seq<WireSpan>) {
    UniqueIds(Everything(c) + multiset(spans))
  }

  lemma Admit(c: Core, work: seq<WireSpan>)
    requires Inv(c, []) && Unused(c, work) && AllClosed(work)
    ensures Inv(c, work)
  {
  }

  lemma FreshInv(budget: nat)
    requires budget >= 1
    ensures Inv(Fresh(budget), [])
  {
  }

  lemma WaiterJoins(c: Core, p: WireSpan, w: WireSpan)
    requires Windowed(c) && p in Ring(c) && |c.log| - c.start < c.budget && w.parent == Some(p.id) && w.id !in c.pending
    ensures Resolvable(c, w) && Commit(c, w) == c.(log := c.log + [w])
    ensures Windowed(c.(log := c.log + [w])) && p in Ring(c.(log := c.log + [w]))
  {
    assert p.id in IdSet(Ring(c));
    assert c.pending - {w.id} == c.pending;
    assert Ring(c.(log := c.log + [w])) == Ring(c) + [w];
  }

  /** Waiters follow the span they waited for at once, in the order they arrived. */
  lemma {:induction false} ReleasedInOrder(c: Core, p: WireSpan, ws: seq<WireSpan>)
    requires Windowed(c) && p in Ring(c) && |c.log| - c.start + |ws| <= c.budget
    requires forall w :: w in ws ==> w.parent == Some(p.id) && w.id !in c.pending
    ensures Drain(c, ws) == c.(log := c.log + ws)
    decreases |ws|
  {
    hide Drain, Resolvable, Commit;
    if ws == [] {
      DrainNothing(c);
      assert c.log + [] == c.log;
    } else {
      var w, rest := ws[0], ws[1..];
      assert ws == [w] + rest && w in ws && forall x :: x in rest ==> x in ws;
      var d := c.(log := c.log + [w]);
      WaiterJoins(c, p, w);
      DrainPlaces(c, w, rest, d);
      ReleasedInOrder(d, p, rest);
      assert c.log + [w] + rest == c.log + ws;
    }
  }
}
