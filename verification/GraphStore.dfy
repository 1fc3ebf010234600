/** The chart's time-series store: a sliding, forward-filled row of bins per series, always equal
    to what binning the whole list of offered samples would give. */
module GraphStore {
  import opened Spans
  import opened Splits
  import opened Buckets

  const BIN_CAP := 600
  const SAMPLE_CAP := 4096

  datatype Bin = Bin(count: nat, sum: nat, min: nat, max: nat, samples: seq<nat>)
  {
    function Record(v: nat): Bin {
      Bin(count + 1, sum + v,
          if count == 0 || v < min then v else min,
          if count == 0 || v > max then v else max,
          if |samples| < SAMPLE_CAP then samples + [v] else samples)
    }
  }

  datatype Series = Series(bins: seq<Option<Bin>>, baseIdx: nat)

  datatype Sample = Sample(key: Pairs, t: nat, value: nat)

  // ── What the bins must hold ──

  /** Centres bin 0 on the first sample.  Zero means unset, so samples that early try again. */
  function Origin(fed: seq<Sample>, window: nat): nat {
    if fed == [] then 0
    else
      var before := Origin(fed[..|fed| - 1], window);
      if before != 0 then before else SatSub(fed[|fed| - 1].t, window / 2)
  }

  function BinIdx(t: nat, origin: nat, window: nat): nat
    requires window >= 1 && t >= origin
  {
    (t - origin) / window
  }

  /** The bin the last sample fell in, unless it came before the origin. */
  ghost function LastBin(fed: seq<Sample>, window: nat): Option<nat>
    requires window >= 1 && fed != []
  {
    var t, origin := fed[|fed| - 1].t, Origin(fed, window);
    if t >= origin then Some(BinIdx(t, origin, window)) else None
  }

  /** Bin indices of the samples of `key`, in order. */
  ghost function Hits(fed: seq<Sample>, key: Pairs, window: nat): seq<nat>
    requires window >= 1
  {
    if fed == [] then []
    else
      var bin := LastBin(fed, window);
      var front := Hits(fed[..|fed| - 1], key, window);
      if fed[|fed| - 1].key == key && bin.Some? then front + [bin.value] else front
  }

  /** Values of the samples of `key` falling in bin `b`, in order. */
  ghost function ValuesIn(fed: seq<Sample>, key: Pairs, window: nat, b: nat): seq<nat>
    requires window >= 1
  {
    if fed == [] then []
    else
      var s := fed[|fed| - 1];
      var front := ValuesIn(fed[..|fed| - 1], key, window, b);
      if s.key == key && LastBin(fed, window) == Some(b) then front + [s.value] else front
  }

  ghost function Latest(fed: seq<Sample>, window: nat): nat
    requires window >= 1
  {
    if fed == [] then 0
    else
      var bin := LastBin(fed, window);
      var front := Latest(fed[..|fed| - 1], window);
      if bin.Some? && bin.value > front then bin.value else front
  }

  ghost function Top(hits: seq<nat>): nat
    requires hits != []
  {
    var last := hits[|hits| - 1];
    if |hits| == 1 || last > Top(hits[..|hits| - 1]) then last else Top(hits[..|hits| - 1])
  }

  /** First bin still retained: the series' first bin, or 600 bins back from its latest. */
  ghost function Base(hits: seq<nat>): nat
    requires hits != []
  {
    if Top(hits) + 1 > hits[0] + BIN_CAP then Top(hits) + 1 - BIN_CAP else hits[0]
  }

  ghost predicate BinHolds(b: Bin, vals: seq<nat>) {
    && b.count == |vals| && vals != [] && b.sum == Sum(vals)
    && IsLeast(b.min, Members(vals)) && IsGreatest(b.max, Members(vals))
    && b.samples == if |vals| <= SAMPLE_CAP then vals else vals[..SAMPLE_CAP]
  }

  ghost predicate Matches(slot: Option<Bin>, vals: seq<nat>) {
    if slot.None? then vals == [] else BinHolds(slot.value, vals)
  }

  ghost function SlotAt(s: Series, b: nat): Option<Bin> {
    if s.baseIdx <= b < s.baseIdx + |s.bins| then s.bins[b - s.baseIdx] else None
  }

  /** Window and contents of one series: at most 600 slots ending at its latest bin, and each slot
      holds exactly the samples of its bin. */
  ghost predicate Holds(s: Series, fed: seq<Sample>, key: Pairs, window: nat)
    requires window >= 1
  {
    var hits := Hits(fed, key, window);
    && hits != []
    && 1 <= |s.bins| <= BIN_CAP
    && s.baseIdx == Base(hits) && s.baseIdx + |s.bins| == Top(hits) + 1
    && forall b :: b >= s.baseIdx ==> Matches(SlotAt(s, b), ValuesIn(fed, key, window, b))
  }

  /** A sample comes before the origin, starts its series, or falls in or after its series' window. */
  ghost predicate Recordable(fed: seq<Sample>, s: Sample, window: nat)
    requires window >= 1
  {
    var hits, bin := Hits(fed, s.key, window), LastBin(fed + [s], window);
    hits != [] && bin.Some? ==> bin.value >= Base(hits)
  }

  ghost predicate AllRecordable(fed: seq<Sample>, more: seq<Sample>, window: nat)
    requires window >= 1
  {
    forall n :: 0 <= n < |more| ==> Recordable(fed + more[..n], more[n], window)
  }

  lemma AllRecordableNone(fed: seq<Sample>, window: nat)
    requires window >= 1
    ensures AllRecordable(fed, [], window)
  {
  }

  lemma AllRecordableOne(fed: seq<Sample>, s: Sample, window: nat)
    requires window >= 1
    ensures AllRecordable(fed, [s], window) <==> Recordable(fed, s, window)
  {
    assert fed + [s][..0] == fed;
  }

  lemma AllRecordableConcat(fed: seq<Sample>, a: seq<Sample>, b: seq<Sample>, window: nat)
    requires window >= 1
    ensures AllRecordable(fed, a + b, window) <==> AllRecordable(fed, a, window) && AllRecordable(fed + a, b, window)
  {
    hide Recordable;
    var ab := a + b;
    forall n | 0 <= n < |a| ensures ab[..n] == a[..n] && ab[n] == a[n] {}
    forall n | 0 <= n < |b| ensures fed + ab[..|a| + n] == fed + a + b[..n] && ab[|a| + n] == b[n] {}
    if AllRecordable(fed, ab, window) {
      forall n | 0 <= n < |a| ensures Recordable(fed + a[..n], a[n], window) {
        assert Recordable(fed + ab[..n], ab[n], window);
      }
      forall n | 0 <= n < |b| ensures Recordable(fed + a + b[..n], b[n], window) {
        assert Recordable(fed + ab[..|a| + n], ab[|a| + n], window);
      }
    }
    if AllRecordable(fed, a, window) && AllRecordable(fed + a, b, window) {
      forall n | 0 <= n < |ab| ensures Recordable(fed + ab[..n], ab[n], window) {
        if n < |a| {
          assert Recordable(fed + a[..n], a[n], window);
        } else {
          assert Recordable(fed + a + b[..n - |a|], b[n - |a|], window);
          assert fed + ab[..n] == fed + a + b[..n - |a|];
        }
      }
    }
  }

  // ── Steps ──

  lemma MembersGrow(vals: seq<nat>, v: nat)
    ensures Members(vals + [v]) == Members(vals) + {v}
  {
  }

  lemma BinRecord(b: Bin, vals: seq<nat>, v: nat)
    requires if vals == [] then b == Bin(0, 0, 0, 0, []) else BinHolds(b, vals)
    ensures BinHolds(b.Record(v), vals + [v])
  {
    MembersGrow(vals, v);
    SumInsert(vals, v, []);
    assert vals + [v] + [] == vals + [v] && vals + [] == vals;
    assert vals == [] ==> Members(vals) == {};
    if |vals| > SAMPLE_CAP {
      assert (vals + [v])[..SAMPLE_CAP] == vals[..SAMPLE_CAP];
    }
  }

  lemma HitsSnoc(fed: seq<Sample>, s: Sample, key: Pairs, window: nat)
    requires window >= 1
    ensures var bin := LastBin(fed + [s], window);
            && Hits(fed + [s], key, window) ==
               Hits(fed, key, window) + (if s.key == key && bin.Some? then [bin.value] else [])
            && (forall b: nat :: ValuesIn(fed + [s], key, window, b) ==
                  ValuesIn(fed, key, window, b) + (if s.key == key && bin == Some(b) then [s.value] else []))
            && Latest(fed + [s], window) ==
               if bin.Some? && bin.value > Latest(fed, window) then bin.value else Latest(fed, window)
  {
    hide LastBin;
    assert (fed + [s])[..|fed|] == fed;
  }

  lemma OriginSnoc(fed: seq<Sample>, s: Sample, window: nat)
    ensures Origin(fed + [s], window) ==
            if Origin(fed, window) != 0 then Origin(fed, window) else SatSub(s.t, window / 2)
  {
    assert (fed + [s])[..|fed|] == fed;
  }

  /** While the origin is unset every sample falls in bin 0. */
  lemma {:induction false} UnsetHitsZero(fed: seq<Sample>, key: Pairs, window: nat)
    requires window >= 1 && Origin(fed, window) == 0
    ensures forall h :: h in Hits(fed, key, window) ==> h == 0
  {
    if fed == [] {
    } else {
      var front, s := fed[..|fed| - 1], fed[|fed| - 1];
      assert Origin(front, window) == 0 && s.t <= window / 2;
      assert s.t / window == 0;
      UnsetHitsZero(front, key, window);
    }
  }

  lemma FirstBinIsZero(t: nat, window: nat)
    requires window >= 1
    ensures BinIdx(t, SatSub(t, window / 2), window) == 0
  {
  }

  lemma TopSnoc(hits: seq<nat>, b: nat)
    ensures Top(hits + [b]) == if hits == [] || b > Top(hits) then b else Top(hits)
  {
    assert (hits + [b])[..|hits|] == hits;
  }

  /** Forward-fills empty slots up to `bin`. */
  method Fill(s: Series, bin: nat) returns (out: Series)
    requires s.bins != [] ==> bin + 1 >= s.baseIdx
    ensures out.baseIdx == (if s.bins == [] then bin else s.baseIdx) && out.bins != []
    ensures s.bins != [] && bin < s.baseIdx ==> out == s
    ensures out.baseIdx + |out.bins| ==
            if s.bins != [] && s.baseIdx + |s.bins| > bin + 1 then s.baseIdx + |s.bins| else bin + 1
    ensures forall b :: b >= out.baseIdx ==> SlotAt(out, b) == SlotAt(s, b)
  {
    var bins, base := s.bins, s.baseIdx;
    if bins == [] {
      base := bin;
    }
    var needed := bin + 1 - base;
    while |bins| < needed
      invariant |s.bins| <= |bins| && (|bins| <= needed || bins == s.bins)
      invariant forall i :: 0 <= i < |bins| ==> bins[i] == if i < |s.bins| then s.bins[i] else None
    {
      bins := bins + [None];
    }
    out := Series(bins, base);
  }

  /** Pops from the front until at most `cap` are left. */
  method PopToCap<T>(items: seq<T>, cap: nat) returns (out: seq<T>, popped: nat)
    ensures popped == if |items| > cap then |items| - cap else 0
    ensures out == items[popped..]
  {
    out, popped := items, 0;
    while |out| > cap
      invariant popped <= |items| && out == items[popped..]
      invariant popped > 0 ==> |out| >= cap
    {
      out, popped := out[1..], popped + 1;
    }
  }

  function Dropped(s: Series, n: nat): Series
    requires n <= |s.bins|
  {
    Series(s.bins[n..], s.baseIdx + n)
  }

  lemma DroppedSlots(s: Series, n: nat, b: nat)
    requires n <= |s.bins| && b >= s.baseIdx + n
    ensures SlotAt(Dropped(s, n), b) == SlotAt(s, b)
  {
  }

  /** A sample of another series, or one before the origin, changes nothing. */
  lemma HoldsStill(line: Series, fed: seq<Sample>, s: Sample, key: Pairs, window: nat)
    requires window >= 1 && Holds(line, fed, key, window)
    requires s.key != key || LastBin(fed + [s], window).None?
    ensures Holds(line, fed + [s], key, window)
  {
    hide Hits, ValuesIn, Matches, LastBin;
    HitsSnoc(fed, s, key, window);
    assert Hits(fed, key, window) + [] == Hits(fed, key, window);
    forall b | b >= line.baseIdx ensures Matches(SlotAt(line, b), ValuesIn(fed + [s], key, window, b)) {
      assert ValuesIn(fed, key, window, b) + [] == ValuesIn(fed, key, window, b);
    }
  }

  lemma {:induction false} NoHitsNoValues(fed: seq<Sample>, key: Pairs, window: nat, b: nat)
    requires window >= 1 && Hits(fed, key, window) == []
    ensures ValuesIn(fed, key, window, b) == []
  {
    if fed == [] {
    } else {
      NoHitsNoValues(fed[..|fed| - 1], key, window, b);
    }
  }

  /** The slots from `from` on are those of `line`, up to and including bin `bin`. */
  ghost predicate Advanced(out: Series, line: Series, bin: nat) {
    && 1 <= |out.bins| <= BIN_CAP
    && out.baseIdx <= bin < out.baseIdx + |out.bins|
    && (forall b :: b >= out.baseIdx ==> SlotAt(out, b) == SlotAt(line, b))
    && var from := if line.bins == [] then bin else line.baseIdx;
       var end := if line.bins != [] && line.baseIdx + |line.bins| > bin + 1
                  then line.baseIdx + |line.bins| else bin + 1;
       out.baseIdx + |out.bins| == end && out.baseIdx == if end > from + BIN_CAP then end - BIN_CAP else from
  }

  method Advance(line: Series, bin: nat) returns (out: Series)
    requires line.bins != [] ==> bin + 1 >= line.baseIdx && |line.bins| <= BIN_CAP
    ensures if line.bins != [] && bin < line.baseIdx then out == line else Advanced(out, line, bin)
  {
    var filled := Fill(line, bin);
    var bins, popped := PopToCap(filled.bins, BIN_CAP);
    out := Series(bins, filled.baseIdx + popped);
    forall b | b >= out.baseIdx ensures SlotAt(out, b) == SlotAt(line, b) {
      DroppedSlots(filled, out.baseIdx - filled.baseIdx, b);
    }
  }

  function Counted(line: Series, bin: nat, value: nat): Series
    requires line.baseIdx <= bin < line.baseIdx + |line.bins|
  {
    var slot := bin - line.baseIdx;
    var b := if line.bins[slot].Some? then line.bins[slot].value else Bin(0, 0, 0, 0, []);
    line.(bins := line.bins[slot := Some(b.Record(value))])
  }

  lemma CountedSlots(line: Series, bin: nat, value: nat, vals: seq<nat>)
    requires line.baseIdx <= bin < line.baseIdx + |line.bins| && Matches(SlotAt(line, bin), vals)
    ensures var out := Counted(line, bin, value);
            && Matches(SlotAt(out, bin), vals + [value])
            && forall b :: b != bin ==> SlotAt(out, b) == SlotAt(line, b)
  {
    var slot := line.bins[bin - line.baseIdx];
    BinRecord(if slot.Some? then slot.value else Bin(0, 0, 0, 0, []), vals, value);
  }

  /** Counts a sample in its bin of one series; `line` is empty for a new series.  The source first
      subtracts the series' base from the bin after the sample's, then from the sample's bin itself;
      one of the two goes below zero exactly when the sample's bin lies before the base. */
  method RecordInSeries(line: Series, s: Sample, bin: nat, window: nat, ghost fed: seq<Sample>)
    returns (ok: bool, out: Series)
    requires window >= 1 && LastBin(fed + [s], window) == Some(bin)
    requires if Hits(fed, s.key, window) == [] then line.bins == [] else Holds(line, fed, s.key, window)
    ensures ok <==> (line.bins != [] ==> bin >= line.baseIdx)
    ensures ok <==> Recordable(fed, s, window)
    ensures ok ==> Holds(out, fed + [s], s.key, window)
  {
    hide Sum, BinHolds, Members, Hits, ValuesIn, Counted, LastBin;
    ghost var hits := Hits(fed, s.key, window);
    if line.bins != [] && bin + 1 < line.baseIdx {
      return false, line;
    }
    var advanced := Advance(line, bin);
    if bin < advanced.baseIdx {
      return false, line;
    }
    TopSnoc(hits, bin);
    forall b | b >= advanced.baseIdx
      ensures Matches(SlotAt(advanced, b), ValuesIn(fed, s.key, window, b))
    {
      if hits == [] {
        NoHitsNoValues(fed, s.key, window, b);
      }
    }
    CountedHolds(advanced, s, bin, window, fed);
    ok, out := true, Counted(advanced, bin, s.value);
  }

  lemma CountedHolds(advanced: Series, s: Sample, bin: nat, window: nat, fed: seq<Sample>)
    requires window >= 1 && LastBin(fed + [s], window) == Some(bin)
    requires var hits := Hits(fed, s.key, window);
             && 1 <= |advanced.bins| <= BIN_CAP && advanced.baseIdx <= bin < advanced.baseIdx + |advanced.bins|
             && advanced.baseIdx == Base(hits + [bin]) && advanced.baseIdx + |advanced.bins| == Top(hits + [bin]) + 1
    requires forall b :: b >= advanced.baseIdx ==> Matches(SlotAt(advanced, b), ValuesIn(fed, s.key, window, b))
    ensures Holds(Counted(advanced, bin, s.value), fed + [s], s.key, window)
  {
    hide Sum, BinHolds, Members, Hits, ValuesIn, Matches, SlotAt, Top, Base, LastBin;
    HitsSnoc(fed, s, s.key, window);
    CountedSlots(advanced, bin, s.value, ValuesIn(fed, s.key, window, bin));
    var out := Counted(advanced, bin, s.value);
    forall b | b >= out.baseIdx ensures Matches(SlotAt(out, b), ValuesIn(fed + [s], s.key, window, b)) {
      var vals := ValuesIn(fed, s.key, window, b);
      assert vals + [] == vals;
      assert ValuesIn(fed + [s], s.key, window, b) == if b == bin then vals + [s.value] else vals;
    }
  }

  /** A series exists for exactly the keys that were hit, and each holds what it must. */
  ghost predicate SeriesAre(series: map<Pairs, Series>, fed: seq<Sample>, window: nat)
    requires window >= 1
  {
    && (forall k :: k in series <==> Hits(fed, k, window) != [])
    && (forall k :: k in series ==> Holds(series[k], fed, k, window))
  }

  lemma SeriesRecorded(series: map<Pairs, Series>, fed: seq<Sample>, window: nat, s: Sample, line: Series)
    requires window >= 1 && SeriesAre(series, fed, window)
    requires LastBin(fed + [s], window).Some? ==> Holds(line, fed + [s], s.key, window)
    ensures SeriesAre(if LastBin(fed + [s], window).Some? then series[s.key := line] else series, fed + [s], window)
  {
    hide Holds, Hits, LastBin;
    var landed := LastBin(fed + [s], window).Some?;
    var series' := if landed then series[s.key := line] else series;
    forall k ensures k in series' <==> Hits(fed + [s], k, window) != [] {
      HitsSnoc(fed, s, k, window);
    }
    forall k | k in series' ensures Holds(series'[k], fed + [s], k, window) {
      if k != s.key || !landed {
        HoldsStill(series[k], fed, s, k, window);
      }
    }
  }

  // ── The contents are a function of the offered samples ──

  lemma BinUnique(a: Bin, b: Bin, vals: seq<nat>)
    requires BinHolds(a, vals) && BinHolds(b, vals)
    ensures a == b
  {
  }

  lemma SeriesUnique(a: Series, b: Series, fed: seq<Sample>, key: Pairs, window: nat)
    requires window >= 1 && Holds(a, fed, key, window) && Holds(b, fed, key, window)
    ensures a == b
  {
    hide BinHolds, ValuesIn, Hits;
    forall i | 0 <= i < |a.bins| ensures a.bins[i] == b.bins[i] {
      var vals := ValuesIn(fed, key, window, a.baseIdx + i);
      assert Matches(SlotAt(a, a.baseIdx + i), vals) && Matches(SlotAt(b, a.baseIdx + i), vals);
      if a.bins[i].Some? && b.bins[i].Some? {
        BinUnique(a.bins[i].value, b.bins[i].value, vals);
      } else {
        NoneMeansEmpty(a.bins[i], b.bins[i], vals);
      }
    }
  }

  lemma NoneMeansEmpty(a: Option<Bin>, b: Option<Bin>, vals: seq<nat>)
    requires Matches(a, vals) && Matches(b, vals)
    ensures a.None? <==> b.None?
  {
  }

  lemma ContentsAreDetermined(a: map<Pairs, Series>, b: map<Pairs, Series>, fed: seq<Sample>, window: nat)
    requires window >= 1 && SeriesAre(a, fed, window) && SeriesAre(b, fed, window)
    ensures a == b
  {
    hide Holds, Hits;
    assert a.Keys == b.Keys;
    forall k | k in a ensures a[k] == b[k] {
      SeriesUnique(a[k], b[k], fed, k, window);
    }
  }

  // ── Samples in time order are always recordable ──

  ghost predicate InTimeOrder(fed: seq<Sample>) {
    forall i, j :: 0 <= i < j < |fed| ==> fed[i].t <= fed[j].t
  }

  lemma {:induction false} HitsAreBelow(fed: seq<Sample>, key: Pairs, window: nat, origin: nat, t: nat)
    requires window >= 1 && t >= origin && Origin(fed, window) in {0, origin} && forall s :: s in fed ==> s.t <= t
    ensures forall h :: h in Hits(fed, key, window) ==> h <= BinIdx(t, origin, window)
  {
    if fed == [] {
    } else {
      var front, s := fed[..|fed| - 1], fed[|fed| - 1];
      assert s in fed && forall x :: x in front ==> x in fed;
      if Origin(front, window) == 0 {
        FirstBinIsZero(s.t, window);
      } else if s.t >= origin {
        BinMonotone(s.t, t, origin, window);
      }
      HitsAreBelow(front, key, window, origin, t);
    }
  }

  lemma BinMonotone(t: nat, u: nat, origin: nat, window: nat)
    requires window >= 1 && origin <= t <= u
    ensures BinIdx(t, origin, window) <= BinIdx(u, origin, window)
  {
    var a, b := t - origin, u - origin;
    assert a == window * (a / window) + a % window && b == window * (b / window) + b % window;
    if a / window >= b / window + 1 {
      MulMonotone(window, b / window + 1, a / window);
    }
  }

  lemma MulMonotone(w: nat, x: nat, y: nat)
    requires x <= y
    ensures w * x <= w * y
  {
  }

  lemma {:induction false} TopIsReached(hits: seq<nat>)
    requires hits != []
    ensures Top(hits) in hits && hits[0] <= Top(hits)
  {
    if |hits| > 1 {
      TopIsReached(hits[..|hits| - 1]);
    }
  }

  lemma TimeOrderIsRecordable(fed: seq<Sample>, s: Sample, window: nat)
    requires window >= 1 && InTimeOrder(fed + [s])
    ensures Recordable(fed, s, window)
  {
    var origin := Origin(fed + [s], window);
    OriginSnoc(fed, s, window);
    forall x | x in fed ensures x.t <= s.t {
      var i :| 0 <= i < |fed| && fed[i] == x;
      assert (fed + [s])[i].t <= (fed + [s])[|fed|].t;
    }
    var hits := Hits(fed, s.key, window);
    if s.t >= origin && hits != [] {
      HitsAreBelow(fed, s.key, window, origin, s.t);
      TopIsReached(hits);
    }
  }

  /** Whatever the times, samples offered in their order never underflow. */
  lemma TimeOrderIsAllRecordable(fed: seq<Sample>, more: seq<Sample>, window: nat)
    requires window >= 1 && InTimeOrder(fed + more)
    ensures AllRecordable(fed, more, window)
  {
    forall n | 0 <= n < |more| ensures Recordable(fed + more[..n], more[n], window) {
      var all := fed + more[..n] + [more[n]];
      forall i, j | 0 <= i < j < |all| ensures all[i].t <= all[j].t {
        assert all[i] == (fed + more)[i] && all[j] == (fed + more)[j];
      }
      TimeOrderIsRecordable(fed + more[..n], more[n], window);
    }
  }

  /** A sample before its own series' window: the first series sets the origin at 99, the second
      starts in bin 5, and its late sample belongs in bin 2. */
  lemma LateSampleUnderflows(a: Pairs, b: Pairs)
    requires a != b
    ensures !Recordable([Sample(a, 100, 1), Sample(b, 110, 1)], Sample(b, 104, 1), 2)
  {
    var one, two := [Sample(a, 100, 1)], [Sample(a, 100, 1), Sample(b, 110, 1)];
    var all := two + [Sample(b, 104, 1)];
    assert one[..0] == [] && two[..1] == one && all[..2] == two;
    assert Origin(one, 2) == 99 && Origin(two, 2) == 99 && Origin(all, 2) == 99;
    assert Hits(one, b, 2) == [];
    assert Hits(two, b, 2) == [5];
    assert LastBin(all, 2) == Some(2);
  }

  // ── The store ──

  lemma {:induction false} TopBelowLatest(fed: seq<Sample>, key: Pairs, window: nat)
    requires window >= 1
    ensures forall h :: h in Hits(fed, key, window) ==> h <= Latest(fed, window)
  {
    hide LastBin;
    if fed == [] {
    } else {
      TopBelowLatest(fed[..|fed| - 1], key, window);
    }
  }

  /** A sample cannot be recorded exactly when its series exists and has moved past it, which takes
      an origin already set and a bin no later than the latest. */
  lemma LateIff(series: map<Pairs, Series>, fed: seq<Sample>, s: Sample, origin: nat, window: nat)
    requires window >= 1 && SeriesAre(series, fed, window) && origin == Origin(fed, window)
    ensures !Recordable(fed, s, window)
            <==> s.key in series && s.t >= origin && BinIdx(s.t, origin, window) < series[s.key].baseIdx
    ensures !Recordable(fed, s, window) ==> origin != 0 && BinIdx(s.t, origin, window) <= Latest(fed, window)
  {
    hide Hits, Latest, Origin, ValuesIn;
    OriginSnoc(fed, s, window);
    var hits := Hits(fed, s.key, window);
    if s.key in series {
      assert Holds(series[s.key], fed, s.key, window);
      TopIsReached(hits);
      TopBelowLatest(fed, s.key, window);
      if origin == 0 {
        UnsetHitsZero(fed, s.key, window);
        FirstBinIsZero(s.t, window);
      }
    }
  }

  class GraphSeriesStore {
    var origin: nat
    var window: nat
    var latestBin: nat
    var series: map<Pairs, Series>
    /** Every sample offered since the last wipe. */
    ghost var fed: seq<Sample>

    ghost predicate Valid()
      reads this
    {
      && window >= 1
      && origin == Origin(fed, window)
      && latestBin == Latest(fed, window)
      && SeriesAre(series, fed, window)
    }

    constructor (windowNs: nat)
      requires windowNs >= 1
      ensures Valid() && fed == [] && window == windowNs
    {
      origin, window, latestBin, series, fed := 0, windowNs, 0, map[], [];
    }

    method Wipe()
      requires window >= 1
      modifies this
      ensures Valid() && fed == [] && window == old(window)
    {
      series, origin, latestBin, fed := map[], 0, 0, [];
    }

    method ResetWindow(windowNs: nat)
      requires windowNs >= 1
      modifies this
      ensures Valid() && fed == [] && window == windowNs
    {
      window := windowNs;
      Wipe();
    }

    /** The sample would fall before the first bin its series still retains. */
    ghost predicate TooLate(key: Pairs, t: nat)
      requires window >= 1
      reads this
    {
      key in series && t >= origin && BinIdx(t, origin, window) < series[key].baseIdx
    }

    /** Records one sample: advance the series' window, then count the sample in its bin.  Fails,
        by a subtraction below zero, exactly on a sample that is too late for its series. */
    method Record(key: Pairs, t: nat, value: nat) returns (ok: bool)
      requires Valid()
      modifies this
      ensures Valid() && window == old(window)
      ensures ok <==> !old(TooLate(key, t))
      ensures ok <==> Recordable(old(fed), Sample(key, t, value), window)
      ensures fed == if ok then old(fed) + [Sample(key, t, value)] else old(fed)
    {
      hide Holds, SeriesAre, Hits, Latest, Recordable, Origin;
      ghost var s := Sample(key, t, value);
      ghost var before := series;
      OriginSnoc(fed, s, window);
      HitsSnoc(fed, s, key, window);
      LateIff(series, fed, s, origin, window);
      if origin == 0 {
        origin := SatSub(t, window / 2);
      }
      var line := Series([], 0);
      if t >= origin {
        var bin := BinIdx(t, origin, window);
        if bin > latestBin {
          latestBin := bin;
        }
        if key in series {
          line := series[key];
        }
        SeriesLookup(series, fed, window, key);
        ok, line := RecordInSeries(line, Sample(key, t, value), bin, window, fed);
        if !ok {
          return;
        }
        series := series[key := line];
      }
      ok := true;
      SeriesRecorded(before, fed, window, s, line);
      fed := fed + [s];
    }

    lemma SeriesLookup(series: map<Pairs, Series>, fed: seq<Sample>, window: nat, key: Pairs)
      requires window >= 1 && SeriesAre(series, fed, window)
      ensures key in series <==> Hits(fed, key, window) != []
      ensures key in series ==> Holds(series[key], fed, key, window) && series[key].bins != []
    {
    }
  }

  // ── The bins, spelt out ──

  /** A bin is one window wide: bin `b` runs from `b` windows after the origin to just before the next. */
  lemma BinIdxIs(t: nat, origin: nat, window: nat)
    requires window >= 1 && t >= origin
    ensures var b := BinIdx(t, origin, window);
            origin + b * window <= t < origin + (b + 1) * window
  {
  }

  /** No other bin holds that time. */
  lemma OneBinOnly(t: nat, origin: nat, window: nat, b: nat)
    requires window >= 1 && t >= origin && origin + b * window <= t < origin + (b + 1) * window
    ensures BinIdx(t, origin, window) == b
  {
    BinIdxIs(t, origin, window);
    var c := BinIdx(t, origin, window);
    MulOrders(window, c + 1, b);
    MulOrders(window, b + 1, c);
  }

  lemma MulOrders(w: nat, x: nat, y: nat)
    ensures x <= y ==> w * x <= w * y
  {
    if x <= y {
      MulMonotone(w, x, y);
    }
  }

  /** Once set, the origin stays; it is half a window before the first sample late enough for that. */
  lemma {:induction false} OriginIs(fed: seq<Sample>, window: nat)
    requires fed != [] && fed[0].t > window / 2
    ensures Origin(fed, window) + window / 2 == fed[0].t
    decreases |fed|
  {
    if |fed| == 1 {
      assert Origin(fed[..0], window) == 0;
    } else {
      OriginIs(fed[..|fed| - 1], window);
    }
  }

  /** The values of one series recorded from time `lo` to just before `hi`, in order. */
  ghost function Within(fed: seq<Sample>, key: Pairs, lo: nat, hi: nat): seq<nat> {
    if fed == [] then []
    else
      var s := fed[|fed| - 1];
      Within(fed[..|fed| - 1], key, lo, hi) + if s.key == key && lo <= s.t < hi then [s.value] else []
  }

  lemma WithinIs(fed: seq<Sample>, s: Sample, key: Pairs, lo: nat, hi: nat)
    ensures Within([], key, lo, hi) == []
    ensures Within(fed + [s], key, lo, hi)
            == Within(fed, key, lo, hi) + if s.key == key && lo <= s.t < hi then [s.value] else []
  {
    assert (fed + [s])[..|fed|] == fed;
  }

  lemma {:induction false} BinIsWithin(fed: seq<Sample>, key: Pairs, window: nat, b: nat)
    requires window >= 1 && fed != [] && fed[0].t > window / 2
    ensures var lo := Origin(fed, window) + b * window;
            ValuesIn(fed, key, window, b) == Within(fed, key, lo, lo + window)
    decreases |fed|
  {
    var front, s := fed[..|fed| - 1], fed[|fed| - 1];
    OriginIs(fed, window);
    var origin := Origin(fed, window);
    hide Origin;
    assert (b + 1) * window == b * window + window;
    if s.t >= origin {
      BinIdxIs(s.t, origin, window);
      if origin + b * window <= s.t < origin + (b + 1) * window {
        OneBinOnly(s.t, origin, window, b);
      }
    }
    if |fed| == 1 {
      assert front == [] && ValuesIn(front, key, window, b) == [];
    } else {
      OriginIs(front, window);
      BinIsWithin(front, key, window, b);
    }
  }

  lemma MatchIs(slot: Option<Bin>, vals: seq<nat>)
    requires Matches(slot, vals)
    ensures slot.None? <==> vals == []
    ensures slot.Some? ==>
      var bin := slot.value;
      && bin.count == |vals| && bin.sum == Sum(vals)
      && (forall n :: 0 <= n < |vals| ==> bin.min <= vals[n] <= bin.max)
      && (exists n :: 0 <= n < |vals| && vals[n] == bin.min)
      && (exists n :: 0 <= n < |vals| && vals[n] == bin.max)
      && bin.samples == if |vals| <= 4096 then vals else vals[..4096]
  {
    hide Sum;
    forall n | 0 <= n < |vals| ensures vals[n] in Members(vals) {}
  }

  /** A slot holds the samples of its own stretch of time and nothing else: empty exactly when there are
      none, else their number, sum, extremes and first 4096 values. */
  lemma SlotSays(line: Series, fed: seq<Sample>, key: Pairs, window: nat, i: nat)
    requires window >= 1 && Holds(line, fed, key, window) && i < |line.bins|
    requires fed != [] && fed[0].t > window / 2
    ensures |line.bins| <= 600
    ensures var lo := Origin(fed, window) + (line.baseIdx + i) * window;
            var slot, vals := line.bins[i], Within(fed, key, lo, lo + window);
            && (slot.None? <==> vals == [])
            && (slot.Some? ==>
                  var bin := slot.value;
                  && bin.count == |vals| && bin.sum == Sum(vals)
                  && (forall n :: 0 <= n < |vals| ==> bin.min <= vals[n] <= bin.max)
                  && (exists n :: 0 <= n < |vals| && vals[n] == bin.min)
                  && (exists n :: 0 <= n < |vals| && vals[n] == bin.max)
                  && bin.samples == if |vals| <= 4096 then vals else vals[..4096])
  {
    hide Origin, Within, ValuesIn, Hits, Matches, Sum;
    var b := line.baseIdx + i;
    BinIsWithin(fed, key, window, b);
    assert SlotAt(line, b) == line.bins[i];
    MatchIs(line.bins[i], ValuesIn(fed, key, window, b));
  }

  /** Every series a store holds is of that kind. */
  lemma StoreHolds(store: GraphSeriesStore, key: Pairs)
    requires store.Valid() && key in store.series
    ensures Holds(store.series[key], store.fed, key, store.window) && store.origin == Origin(store.fed, store.window)
    ensures store.latestBin == Latest(store.fed, store.window)
  {
    hide Latest, Origin, Holds, Hits;
  }

  /** A series keeps the bins from its first one to its latest, of those the last 600. */
  lemma WindowIs(line: Series, fed: seq<Sample>, key: Pairs, window: nat)
    requires window >= 1 && Holds(line, fed, key, window)
    ensures var hits := Hits(fed, key, window);
            && hits != [] && |line.bins| >= 1
            && (forall h :: h in hits ==> h < line.baseIdx + |line.bins|) && line.baseIdx + |line.bins| - 1 in hits
            && (line.baseIdx == hits[0] || |line.bins| == 600) && line.baseIdx >= hits[0] && |line.bins| <= 600
  {
    hide Hits, ValuesIn;
    var hits := Hits(fed, key, window);
    TopIsReached(hits);
    TopIsGreatest(hits);
  }

  lemma {:induction false} TopIsGreatest(hits: seq<nat>)
    requires hits != []
    ensures forall h :: h in hits ==> h <= Top(hits)
  {
    var n := |hits| - 1;
    assert hits == hits[..n] + [hits[n]];
    if n > 0 {
      TopIsGreatest(hits[..n]);
    }
  }
}
