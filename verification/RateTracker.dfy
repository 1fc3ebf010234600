/** The header's events-per-second counter: nine half-second buckets in a ring. */
module RateTracker {
  import opened Spans

  const BUCKETS: nat := 9
  const HALF_NS: nat := 500_000_000
  const U32_MAX: nat := 0xFFFF_FFFF

  function Capped(n: nat): nat {
    if n > U32_MAX then U32_MAX else n
  }

  /** Which half-second after the first event `t` falls in. */
  function Slot(t: nat, origin: nat): nat {
    SatSub(t, origin) / HALF_NS
  }

  ghost function SlotsOf(log: seq<nat>): seq<nat> {
    seq(|log|, i requires 0 <= i < |log| => Slot(log[i], log[0]))
  }

  lemma SlotsSnoc(times: seq<nat>, i: nat)
    requires i < |times|
    ensures SlotsOf(times[..0]) == []
    ensures SlotsOf(times[..i + 1]) == SlotsOf(times[..i]) + [Slot(times[i], times[0])]
    ensures times[..i + 1] == times[..i] + [times[i]]
  {
  }

  ghost function CountIn(hits: seq<nat>, slot: int): nat {
    if hits == [] then 0
    else CountIn(hits[..|hits| - 1], slot) + if hits[|hits| - 1] == slot then 1 else 0
  }

  lemma CountSnoc(hits: seq<nat>, h: nat, slot: int)
    ensures CountIn(hits + [h], slot) == CountIn(hits, slot) + if h == slot then 1 else 0
  {
    assert (hits + [h])[..|hits|] == hits;
  }

  lemma {:induction false} CountNone(hits: seq<nat>, slot: int)
    requires forall h :: h in hits ==> h < slot || slot < 0
    ensures CountIn(hits, slot) == 0
  {
    if hits == [] {
    } else {
      var front := hits[..|hits| - 1];
      forall h | h in front ensures h < slot || slot < 0 {
        assert h in hits;
      }
      assert hits[|hits| - 1] in hits;
      CountNone(front, slot);
    }
  }

  /** Ring position of the bucket `j` half-seconds back. */
  function Back(head: nat, j: nat): nat
    requires head < BUCKETS && j < BUCKETS
  {
    (head + BUCKETS - j) % BUCKETS
  }

  /** `counts` holds, `j` places back from `head`, the events of slot `current - j`. */
  ghost predicate Tracks(counts: seq<nat>, head: nat, hits: seq<nat>, current: nat) {
    && |counts| == BUCKETS && head < BUCKETS
    && (forall j :: 0 <= j < BUCKETS ==> counts[Back(head, j)] == Capped(CountIn(hits, current - j)))
    && (forall h :: h in hits ==> h <= current)
  }

  /** Rolling on by one half-second: the oldest bucket is cleared and becomes the current one. */
  lemma RollKeeps(counts: seq<nat>, head: nat, hits: seq<nat>, current: nat)
    requires Tracks(counts, head, hits, current)
    ensures Tracks(counts[(head + 1) % BUCKETS := 0], (head + 1) % BUCKETS, hits, current + 1)
  {
    hide CountIn, Back;
    var head' := (head + 1) % BUCKETS;
    var counts' := counts[head' := 0];
    BackInRange(head');
    forall j | 0 <= j < BUCKETS ensures counts'[Back(head', j)] == Capped(CountIn(hits, current + 1 - j)) {
      BackShifts(head, j);
      if j == 0 {
        CountNone(hits, current + 1);
      }
    }
  }

  lemma BackShifts(head: nat, j: nat)
    requires head < BUCKETS && j < BUCKETS
    ensures var head' := (head + 1) % BUCKETS;
            if j == 0 then Back(head', j) == head' else Back(head', j) == Back(head, j - 1) != head'
  {
  }

  lemma BackInRange(head: nat)
    requires head < BUCKETS
    ensures forall j :: 0 <= j < BUCKETS ==> Back(head, j) < BUCKETS
  {
  }

  lemma HitKeeps(counts: seq<nat>, head: nat, hits: seq<nat>, current: nat)
    requires Tracks(counts, head, hits, current)
    ensures Tracks(counts[head := Capped(counts[head] + 1)], head, hits + [current], current)
  {
    var counts' := counts[head := Capped(counts[head] + 1)];
    forall j | 0 <= j < BUCKETS ensures counts'[Back(head, j)] == Capped(CountIn(hits + [current], current - j)) {
      CountSnoc(hits, current, current - j);
      assert Back(head, 0) == head;
      assert counts[Back(head, j)] == Capped(CountIn(hits, current - j));
    }
  }

  /** Events of the `n` half-seconds before slot `current`, each count capped. */
  ghost function CompletedCount(hits: seq<nat>, current: nat, n: nat): nat {
    if n == 0 then 0 else CompletedCount(hits, current, n - 1) + Capped(CountIn(hits, current - n))
  }

  /** Sum of the buckets from `i` on, other than the current one. */
  function SumOthers(c: seq<nat>, head: nat, i: nat): nat
    requires i <= |c|
    decreases |c| - i
  {
    if i == |c| then 0 else (if i == head then 0 else c[i]) + SumOthers(c, head, i + 1)
  }

  ghost function SumOf(c: seq<nat>, lo: nat, hi: nat): nat
    requires lo <= hi <= |c|
    decreases hi - lo
  {
    if lo == hi then 0 else c[lo] + SumOf(c, lo + 1, hi)
  }

  lemma {:induction false} OthersSplit(c: seq<nat>, head: nat, i: nat)
    requires head < |c| && i <= |c|
    ensures SumOthers(c, head, i) == if i <= head then SumOf(c, i, head) + SumOf(c, head + 1, |c|) else SumOf(c, i, |c|)
    decreases |c| - i
  {
    if i < |c| {
      OthersSplit(c, head, i + 1);
    }
  }

  /** Reading backwards around the ring takes the part below the current bucket, then the part above. */
  lemma {:induction false} BackSplit(c: seq<nat>, head: nat, hits: seq<nat>, current: nat, n: nat)
    requires Tracks(c, head, hits, current) && n < BUCKETS
    ensures CompletedCount(hits, current, n) ==
            if n <= head then SumOf(c, head - n, head) else SumOf(c, 0, head) + SumOf(c, BUCKETS + head - n, BUCKETS)
  {
    hide CountIn;
    if n == 0 {
    } else {
      BackSplit(c, head, hits, current, n - 1);
      assert c[Back(head, n)] == Capped(CountIn(hits, current - n));
    }
  }

  /** The eight buckets other than the current one are the eight completed half-seconds. */
  lemma OthersAreCompleted(counts: seq<nat>, head: nat, hits: seq<nat>, current: nat)
    requires Tracks(counts, head, hits, current)
    ensures SumOthers(counts, head, 0) == CompletedCount(hits, current, BUCKETS - 1)
  {
    hide CountIn;
    OthersSplit(counts, head, 0);
    BackSplit(counts, head, hits, current, BUCKETS - 1);
  }

  /** When the tracker's clock lands in the right half-second: exactly when fewer than ten of them
      have gone by since the current bucket opened. */
  lemma ClockIsRightIff(now: nat, origin: nat, current: nat)
    requires now >= origin + HALF_NS * current
    ensures var n := (now - (origin + HALF_NS * current)) / 1_000_000 / 500;
            current + (if n > BUCKETS then BUCKETS else n) == Slot(now, origin)
            <==> now < origin + HALF_NS * current + 10 * HALF_NS
    ensures var n := (now - (origin + HALF_NS * current)) / 1_000_000 / 500;
            current + n == Slot(now, origin)
  {
    var d := now - (origin + HALF_NS * current);
    assert d / 1_000_000 / 500 == d / HALF_NS;
    assert Slot(now, origin) == current + d / HALF_NS;
  }

  class RateTracker {
    const buckets: array<nat>
    var head: nat
    var bucketStart: Option<nat>
    /** Event times, the half-second each was counted in, and the one the current bucket stands for. */
    ghost var log: seq<nat>
    ghost var hits: seq<nat>
    ghost var current: nat

    ghost predicate Valid()
      reads this, buckets
    {
      && buckets.Length == BUCKETS && head < BUCKETS && |hits| == |log|
      && (bucketStart.None? <==> log == [])
      && (log == [] ==> current == 0)
      && (bucketStart.Some? ==> bucketStart.value == log[0] + HALF_NS * current)
      && Tracks(buckets[..], head, hits, current)
    }

    constructor ()
      ensures Valid() && fresh(buckets) && log == [] && hits == []
    {
      buckets := new nat[9](_ => 0);
      head, bucketStart, log, hits, current := 0, None, [], [], 0;
    }

    /** Counts an event in the current half-second after rolling on at most nine of them.  It is
        the event's own half-second exactly when less than five seconds had gone by. */
    method Record(now: nat)
      requires Valid()
      modifies this, buckets
      ensures Valid() && log == old(log) + [now] && hits == old(hits) + [current]
      ensures old(log) == [] ==> current == 0
      ensures old(bucketStart).Some? && now >= old(bucketStart).value ==>
        current == if Slot(now, log[0]) < old(current) + BUCKETS then Slot(now, log[0]) else old(current) + BUCKETS
      ensures old(bucketStart).Some? && now >= old(bucketStart).value ==>
        (current == Slot(now, log[0]) <==> now < old(bucketStart).value + 10 * HALF_NS)
    {
      hide Tracks, CountIn;
      if bucketStart.None? {
        bucketStart := Some(now);
      } else {
        var elapsedMs := SatSub(now, bucketStart.value) / 1_000_000;
        if now >= bucketStart.value {
          ClockIsRightIff(now, log[0], current);
        }
        if elapsedMs >= 500 {
          var advances := if elapsedMs / 500 > BUCKETS then BUCKETS else elapsedMs / 500;
          Roll(advances);
          bucketStart := Some(bucketStart.value + HALF_NS * advances);
        }
      }
      HitKeeps(buckets[..], head, hits, current);
      buckets[head] := Capped(buckets[head] + 1);
      log, hits := log + [now], hits + [current];
    }

    method Roll(advances: nat)
      requires buckets.Length == BUCKETS && head < BUCKETS && Tracks(buckets[..], head, hits, current)
      modifies this`head, this`current, buckets
      ensures head < BUCKETS && current == old(current) + advances
      ensures Tracks(buckets[..], head, hits, current)
    {
      for i := 0 to advances
        invariant head < BUCKETS && current == old(current) + i
        invariant Tracks(buckets[..], head, hits, current)
      {
        RollKeeps(buckets[..], head, hits, current);
        head := (head + 1) % BUCKETS;
        buckets[head] := 0;
        current := current + 1;
      }
    }

    /** Events of the last eight completed half-seconds over four seconds. */
    method RateHz() returns (r: real)
      requires Valid()
      ensures r == if log == [] then 0.0 else CompletedCount(hits, current, BUCKETS - 1) as real / 4.0
    {
      if bucketStart.None? {
        return 0.0;
      }
      var sum := 0;
      for i := 0 to BUCKETS
        invariant sum + SumOthers(buckets[..], head, i) == SumOthers(buckets[..], head, 0)
      {
        if i != head {
          sum := sum + buckets[i];
        }
      }
      OthersAreCompleted(buckets[..], head, hits, current);
      r := sum as real / 4.0;
    }
  }

  /** Times that never leave the counter five seconds behind. */
  ghost predicate Timely(log: seq<nat>) {
    && (forall i, j :: 0 <= i < j < |log| ==> log[i] <= log[j])
    && forall i :: 0 < i < |log| ==> log[i] < log[0] + HALF_NS * Slot(log[i - 1], log[0]) + 10 * HALF_NS
  }

  /** A whole run of timely events: every event is counted in its own half-second. */
  method CountAll(times: seq<nat>) returns (t: RateTracker)
    requires Timely(times)
    ensures t.Valid() && t.log == times && t.hits == SlotsOf(times)
    ensures times != [] ==> t.current == Slot(times[|times| - 1], times[0])
  {
    t := new RateTracker();
    assert SlotsOf(times[..0]) == [];
    for i := 0 to |times|
      invariant fresh(t) && fresh(t.buckets) && t.Valid() && t.log == times[..i] && t.hits == SlotsOf(times[..i])
      invariant i > 0 ==> t.current == Slot(times[i - 1], times[0])
    {
      SlotsSnoc(times, i);
      t.Record(times[i]);
    }
    assert times[..|times|] == times;
  }

  /** The rate after a timely run: the events of the eight half-seconds before the last event's own,
      over four seconds. */
  method RateAfter(times: seq<nat>) returns (r: real)
    requires Timely(times)
    ensures r == if times == [] then 0.0
                 else CompletedCount(SlotsOf(times), Slot(times[|times| - 1], times[0]), BUCKETS - 1) as real / 4.0
  {
    var t := CountAll(times);
    r := t.RateHz();
  }

  /** After a pause of six seconds the next event lands nine half-seconds on instead of twelve; the
      one after it is right again. */
  method PauseLandsEarly() returns (t: RateTracker)
    ensures t.Valid() && t.log == [0, 6_000_000_000, 6_000_000_000] && t.hits == [0, 9, 12]
    ensures SlotsOf(t.log) == [0, 12, 12]
  {
    t := new RateTracker();
    t.Record(0);
    t.Record(6_000_000_000);
    t.Record(6_000_000_000);
  }

  /** A slot is one half-second: slot `n` runs from `n` times 500 ms to just before the next. */
  lemma SlotIs(t: nat, origin: nat)
    requires t >= origin
    ensures origin + Slot(t, origin) * 500_000_000 <= t < origin + (Slot(t, origin) + 1) * 500_000_000
  {
  }

  /** A count is itself up to the largest 32-bit number, and that number beyond. */
  lemma CappedIs(n: nat)
    ensures n < 0x1_0000_0000 ==> Capped(n) == n
    ensures n >= 0x1_0000_0000 ==> Capped(n) == 0xFFFF_FFFF
  {
  }

  /** Number of hits from slot `lo` up to just before slot `hi`. */
  ghost function Between(hits: seq<nat>, lo: int, hi: int): nat {
    if hits == [] then 0
    else Between(hits[..|hits| - 1], lo, hi) + if lo <= hits[|hits| - 1] < hi then 1 else 0
  }

  lemma {:induction false} BetweenIs(hits: seq<nat>, lo: int, hi: int)
    ensures Between(hits, lo, hi) == |set i | 0 <= i < |hits| && lo <= hits[i] < hi|
  {
    if hits == [] {
    } else {
      var n := |hits| - 1;
      var front := hits[..n];
      BetweenIs(front, lo, hi);
      var few, many := set i | 0 <= i < |front| && lo <= front[i] < hi, set i | 0 <= i < |hits| && lo <= hits[i] < hi;
      assert many == if lo <= hits[n] < hi then few + {n} else few;
    }
  }

  /** While no count is cut off, the completed half-seconds together hold the events of the last four
      seconds before the current one. */
  lemma {:induction false} CompletedIs(hits: seq<nat>, current: nat, n: nat)
    requires |hits| <= U32_MAX
    ensures CompletedCount(hits, current, n) == Between(hits, current - n, current)
    decreases n
  {
    hide CountIn, Between;
    if n == 0 {
      NoneBetween(hits, current);
    } else {
      CompletedIs(hits, current, n - 1);
      OneMoreSlot(hits, current - n, current);
      CountFits(hits, current - n);
    }
  }

  lemma {:induction false} NoneBetween(hits: seq<nat>, at: int)
    ensures Between(hits, at, at) == 0
  {
    if hits == [] {
    } else {
      NoneBetween(hits[..|hits| - 1], at);
    }
  }

  lemma {:induction false} OneMoreSlot(hits: seq<nat>, lo: int, hi: int)
    requires lo < hi
    ensures Between(hits, lo, hi) == Between(hits, lo + 1, hi) + CountIn(hits, lo)
  {
    if hits == [] {
    } else {
      OneMoreSlot(hits[..|hits| - 1], lo, hi);
    }
  }

  lemma {:induction false} CountFits(hits: seq<nat>, slot: int)
    ensures CountIn(hits, slot) <= |hits|
  {
    if hits == [] {
    } else {
      CountFits(hits[..|hits| - 1], slot);
    }
  }
}
