/** The wire-level span and the arithmetic every consumer of it shares. */
module Spans {

  datatype Option<+T> = None | Some(value: T)

  /** One span as streamed to the console.  Field values are their display strings; each event is
      its `recorded_at_ns`.  Times and ids are unbounded naturals. */
  datatype WireSpan = WireSpan(
    id: nat,
    parent: Option<nat>,
    name: string,
    fields: seq<(string, string)>,
    events: seq<nat>,
    openedAt: nat,
    closedAt: Option<nat>)

  /** Rust's `saturating_sub`. */
  function SatSub(a: nat, b: nat): nat {
    if a < b then 0 else a - b
  }

  /** Wall-clock duration: an unclosed span counts as closing when it opened. */
  function Total(s: WireSpan): nat {
    SatSub(if s.closedAt.Some? then s.closedAt.value else s.openedAt, s.openedAt)
  }

  function Ids(spans: seq<WireSpan>): (r: seq<nat>)
    ensures |r| == |spans|
  {
    seq(|spans|, i requires 0 <= i < |spans| => spans[i].id)
  }

  function IdSet(spans: seq<WireSpan>): set<nat> {
    set s | s in spans :: s.id
  }

  lemma IdSetSnoc(spans: seq<WireSpan>, s: WireSpan)
    ensures IdSet(spans + [s]) == IdSet(spans) + {s.id}
  {
    forall t ensures t in spans + [s] <==> t in spans || t == s {}
  }

  ghost predicate DistinctIds(spans: seq<WireSpan>) {
    forall i, j :: 0 <= i < j < |spans| ==> spans[i].id != spans[j].id
  }

  /** Ids appended to a log, in order. */
  ghost function NewIds(before: seq<WireSpan>, after: seq<WireSpan>): seq<nat>
    requires before <= after
  {
    Ids(after[|before|..])
  }

  lemma NewIdsNone(acc: seq<nat>, log: seq<WireSpan>)
    ensures acc + NewIds(log, log) == acc
  {
  }

  lemma NewIdsChain(acc: seq<nat>, a: seq<WireSpan>, b: seq<WireSpan>, c: seq<WireSpan>)
    requires a <= b <= c
    ensures acc + NewIds(a, b) + NewIds(b, c) == acc + NewIds(a, c)
  {
    assert c[|a|..] == b[|a|..] + c[|b|..];
  }

  lemma NewIdsCons(acc: seq<nat>, a: seq<WireSpan>, s: WireSpan, c: seq<WireSpan>)
    requires a + [s] <= c
    ensures a <= c && acc + [s.id] + NewIds(a + [s], c) == acc + NewIds(a, c)
  {
    assert a <= a + [s] && NewIds(a, a + [s]) == [s.id];
    NewIdsChain(acc, a, a + [s], c);
  }

  lemma NextOf<T>(s: seq<T>, i: nat, rest: seq<T>)
    requires i < |s|
    ensures s[i..] + rest == [s[i]] + (s[i + 1..] + rest) && s[..i + 1] == s[..i] + [s[i]]
  {
  }

  lemma WholeOf<T>(s: seq<T>, rest: seq<T>)
    ensures s[..0] == [] && s[0..] + rest == s + rest && s[..|s|] == s && s[|s|..] + rest == rest
  {
  }

  /** The difference, or zero where there is none; a duration is closing time minus opening time, zero
      for a clock that ran backwards or a span still open. */
  lemma DurationIs(s: WireSpan)
    ensures s.closedAt.Some? && s.openedAt <= s.closedAt.value ==> s.openedAt + Total(s) == s.closedAt.value
    ensures s.closedAt.None? || s.closedAt.value <= s.openedAt ==> Total(s) == 0
  {
  }

  lemma DifferenceIs(a: nat, b: nat)
    ensures b <= a ==> b + SatSub(a, b) == a
    ensures a <= b ==> SatSub(a, b) == 0
  {
  }

  /** The ids of the spans behind the old end of the log, in order. */
  lemma NewIdsAre(before: seq<WireSpan>, after: seq<WireSpan>, i: nat)
    requires before <= after && i < |after| - |before|
    ensures |NewIds(before, after)| == |after| - |before| && NewIds(before, after)[i] == after[|before| + i].id
  {
  }
}
