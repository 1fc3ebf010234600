/** The driver: events and closed spans travel on two channels and are joined again in a bounded
    side buffer. */
module EventJoin {
  import opened Spans
  import opened Buckets
  import opened Records

  type Side = map<nat, seq<nat>>

  function Parked(side: Side, p: nat): seq<nat> {
    if p in side then side[p] else []
  }

  // ── What happens, one arrival at a time ──

  datatype Arrival = Emitted(m: Message) | Closed(span: Record)

  /** What has left the buffer: with its span, or pushed out to make room. */
  datatype Chunk = Delivered(span: Record, extra: seq<nat>) | Evicted(parent: nat, bodies: seq<nat>)

  datatype State = State(side: Side, out: seq<Chunk>)

  function ParkEvent(s: State, cap: nat, m: Message): State {
    if m.parent in s.side then
      s.(side := s.side[m.parent := s.side[m.parent] + [m.body]])
    else if |s.side| >= cap && s.side != map[] then
      var k := Least(s.side.Keys);
      State((s.side - {k})[m.parent := [m.body]], s.out + [Evicted(k, s.side[k])])
    else
      s.(side := s.side[m.parent := [m.body]])
  }

  function Join(s: State, span: Record): State {
    State(s.side - {span.id}, s.out + [Delivered(span, Parked(s.side, span.id))])
  }

  function Step(s: State, cap: nat, a: Arrival): State {
    match a
    case Emitted(m) => ParkEvent(s, cap, m)
    case Closed(span) => Join(s, span)
  }

  ghost function Play(hist: seq<Arrival>, cap: nat): State {
    if hist == [] then State(map[], [])
    else Step(Play(hist[..|hist| - 1], cap), cap, hist[|hist| - 1])
  }

  lemma PlaySnoc(hist: seq<Arrival>, cap: nat, a: Arrival)
    ensures Play(hist + [a], cap) == Step(Play(hist, cap), cap, a)
  {
    assert (hist + [a])[..|hist|] == hist;
  }

  // ── Every event is attached to its own span, parked, or evicted, in order ──

  /** The bodies emitted for span `p`, in order. */
  ghost function EventsFor(hist: seq<Arrival>, p: nat): seq<nat> {
    if hist == [] then []
    else
      var a := hist[|hist| - 1];
      EventsFor(hist[..|hist| - 1], p) + if a.Emitted? && a.m.parent == p then [a.m.body] else []
  }

  /** The bodies that left the buffer under `p`, in order. */
  ghost function Gone(out: seq<Chunk>, p: nat): seq<nat> {
    if out == [] then []
    else
      var c := out[|out| - 1];
      Gone(out[..|out| - 1], p) +
      match c
      case Delivered(span, extra) => if span.id == p then extra else []
      case Evicted(q, bodies) => if q == p then bodies else []
  }

  lemma GoneSnoc(out: seq<Chunk>, c: Chunk, p: nat)
    ensures Gone(out + [c], p) == Gone(out, p) +
            match c
            case Delivered(span, extra) => (if span.id == p then extra else [])
            case Evicted(q, bodies) => (if q == p then bodies else [])
  {
    assert (out + [c])[..|out|] == out;
  }

  lemma {:induction false} EachEventIsSomewhere(hist: seq<Arrival>, cap: nat, p: nat)
    ensures Gone(Play(hist, cap).out, p) + Parked(Play(hist, cap).side, p) == EventsFor(hist, p)
  {
    hide Gone, Least;
    if hist == [] {
      assert Gone([], p) == [] by { GoneNone(p); }
    } else {
      var front, a := hist[..|hist| - 1], hist[|hist| - 1];
      var s := Play(front, cap);
      EachEventIsSomewhere(front, cap, p);
      StepConserves(s, cap, a, p);
    }
  }

  lemma GoneNone(p: nat)
    ensures Gone([], p) == []
  {
  }

  lemma StepConserves(s: State, cap: nat, a: Arrival, p: nat)
    ensures var t := Step(s, cap, a);
            Gone(t.out, p) + Parked(t.side, p)
            == Gone(s.out, p) + Parked(s.side, p) + if a.Emitted? && a.m.parent == p then [a.m.body] else []
  {
    hide Gone;
    match a {
      case Emitted(m) =>
        if m.parent !in s.side && |s.side| >= cap && s.side != map[] {
          var k := Least(s.side.Keys);
          GoneSnoc(s.out, Evicted(k, s.side[k]), p);
        }
      case Closed(span) =>
        GoneSnoc(s.out, Delivered(span, Parked(s.side, span.id)), p);
    }
  }

  function AtLeastOne(cap: nat): nat {
    if cap < 1 then 1 else cap
  }

  lemma MapSizes<V>(m: map<nat, V>, k: nat, v: V)
    ensures |m[k := v]| == if k in m then |m| else |m| + 1
    ensures |m - {k}| == if k in m then |m| - 1 else |m|
  {
    assert m[k := v].Keys == m.Keys + {k} && (m - {k}).Keys == m.Keys - {k};
    assert |m| == |m.Keys| && |m[k := v]| == |m[k := v].Keys| && |m - {k}| == |(m - {k}).Keys|;
  }

  lemma ParkIsBounded(s: State, cap: nat, m: Message)
    requires |s.side| <= AtLeastOne(cap)
    ensures |ParkEvent(s, cap, m).side| <= AtLeastOne(cap)
  {
    MapSizes(s.side, m.parent, Parked(s.side, m.parent) + [m.body]);
    MapSizes(s.side, m.parent, [m.body]);
    var k := Least(s.side.Keys);
    MapSizes(s.side, k, []);
    MapSizes(s.side - {k}, m.parent, [m.body]);
  }

  lemma {:induction false} BufferIsBounded(hist: seq<Arrival>, cap: nat)
    ensures |Play(hist, cap).side| <= AtLeastOne(cap)
    ensures forall p :: p in Play(hist, cap).side ==> Play(hist, cap).side[p] != []
  {
    if hist == [] {
    } else {
      var front, a := hist[..|hist| - 1], hist[|hist| - 1];
      BufferIsBounded(front, cap);
      var s := Play(front, cap);
      match a {
        case Emitted(m) => ParkIsBounded(s, cap, m);
        case Closed(span) => MapSizes(s.side, span.id, []);
      }
    }
  }

  /** A span takes with it what is parked for it: all of its own events so far exactly when none of
      them left the buffer earlier.  A corollary of `EachEventIsSomewhere`. */
  lemma DeliveredIff(hist: seq<Arrival>, cap: nat, span: Record)
    ensures var s := Play(hist, cap);
            && Play(hist + [Closed(span)], cap)
               == State(s.side - {span.id}, s.out + [Delivered(span, Parked(s.side, span.id))])
            && (Parked(s.side, span.id) == EventsFor(hist, span.id) <==> Gone(s.out, span.id) == [])
  {
    PlaySnoc(hist, cap, Closed(span));
    EachEventIsSomewhere(hist, cap, span.id);
    var s := Play(hist, cap);
    TailIsAllIff(Gone(s.out, span.id), Parked(s.side, span.id));
  }

  lemma TailIsAllIff<T>(a: seq<T>, b: seq<T>)
    ensures b == a + b <==> a == []
  {
    if a == [] {
      assert a + b == b;
    } else {
      assert |a + b| > |b|;
    }
  }

  /** One more event is one more at the end for its own span, and nothing for any other. */
  lemma EventsForIs(hist: seq<Arrival>, a: Arrival, p: nat)
    ensures EventsFor([], p) == []
    ensures EventsFor(hist + [a], p) == EventsFor(hist, p) + if a.Emitted? && a.m.parent == p then [a.m.body] else []
  {
    assert (hist + [a])[..|hist|] == hist;
  }

  /** The span pushed out is the oldest one waiting, the one with the lowest id, with all its parked
      events; it goes only for the event of another span, and only from a full buffer. */
  lemma OldestIsPushedOut(hist: seq<Arrival>, cap: nat, m: Message)
    ensures var s, t := Play(hist, cap), Play(hist + [Emitted(m)], cap);
            t.out != s.out ==>
              |s.side| >= cap && m.parent !in s.side &&
              exists k :: k in s.side && t.out == s.out + [Evicted(k, s.side[k])] && k !in t.side
                          && forall q :: q in s.side ==> k <= q
  {
    PlaySnoc(hist, cap, Emitted(m));
    var s, t := Play(hist, cap), Play(hist + [Emitted(m)], cap);
    if t.out != s.out {
      var k := Least(s.side.Keys);
      assert k in s.side && t.out == s.out + [Evicted(k, s.side[k])];
    }
  }

  /** An event is parked behind those already parked for its span, and no other list changes but the
      one pushed out. */
  lemma ParkedAtTheEnd(hist: seq<Arrival>, cap: nat, m: Message, p: nat)
    ensures var s, t := Play(hist, cap), Play(hist + [Emitted(m)], cap);
            && Parked(t.side, m.parent) == Parked(s.side, m.parent) + [m.body]
            && (p != m.parent && p in t.side ==> p in s.side && t.side[p] == s.side[p])
  {
    PlaySnoc(hist, cap, Emitted(m));
  }

  // ── When nothing is pushed out, read off the arrivals ──

  /** The spans with events emitted since they last closed, if they did. */
  ghost function Waiting(hist: seq<Arrival>): set<nat> {
    if hist == [] then {}
    else
      var front := Waiting(hist[..|hist| - 1]);
      match hist[|hist| - 1]
      case Emitted(m) => front + {m.parent}
      case Closed(span) => front - {span.id}
  }

  /** A span waits while it has an event after which it has not closed. */
  lemma {:induction false} WaitingIs(hist: seq<Arrival>, p: nat)
    ensures p in Waiting(hist) <==>
            exists i :: 0 <= i < |hist| && hist[i].Emitted? && hist[i].m.parent == p
                        && forall j :: i < j < |hist| && hist[j].Closed? ==> hist[j].span.id != p
  {
    if hist == [] {
    } else {
      var front, last := hist[..|hist| - 1], hist[|hist| - 1];
      WaitingIs(front, p);
      if i :| 0 <= i < |front| && front[i].Emitted? && front[i].m.parent == p
              && (forall j :: i < j < |front| && front[j].Closed? ==> front[j].span.id != p)
              && !(last.Closed? && last.span.id == p) {
        assert hist[i] == front[i];
      }
      if i :| 0 <= i < |hist| && hist[i].Emitted? && hist[i].m.parent == p
              && forall j :: i < j < |hist| && hist[j].Closed? ==> hist[j].span.id != p {
        if i < |front| {
          assert front[i] == hist[i] && forall j :: i < j < |front| ==> front[j] == hist[j];
        }
      }
    }
  }

  lemma RoomIs(cap: nat)
    ensures AtLeastOne(cap) >= 1 && AtLeastOne(cap) >= cap && (cap >= 1 ==> AtLeastOne(cap) == cap)
    ensures cap == 0 ==> AtLeastOne(cap) == 1
  {
  }

  /** Never more spans waiting than the buffer has room for. */
  ghost predicate FitsBuffer(hist: seq<Arrival>, cap: nat) {
    forall n :: 0 <= n <= |hist| ==> |Waiting(hist[..n])| <= AtLeastOne(cap)
  }

  ghost predicate NoneEvicted(out: seq<Chunk>) {
    forall c :: c in out ==> c.Delivered?
  }

  lemma FitsSnoc(hist: seq<Arrival>, a: Arrival, cap: nat)
    ensures FitsBuffer(hist + [a], cap) <==> FitsBuffer(hist, cap) && |Waiting(hist + [a])| <= AtLeastOne(cap)
  {
    hide Waiting;
    var more := hist + [a];
    assert more[..|more|] == more;
    forall n | 0 <= n <= |hist| ensures more[..n] == hist[..n] {}
    if FitsBuffer(more, cap) {
      forall n | 0 <= n <= |hist| ensures |Waiting(hist[..n])| <= AtLeastOne(cap) {
        assert |Waiting(more[..n])| <= AtLeastOne(cap);
      }
    }
  }

  lemma ParkEvictsIff(s: State, cap: nat, m: Message)
    requires NoneEvicted(s.out) && |s.side| <= AtLeastOne(cap)
    ensures var t := ParkEvent(s, cap, m);
            && (NoneEvicted(t.out) <==> |s.side.Keys + {m.parent}| <= AtLeastOne(cap))
            && (NoneEvicted(t.out) ==> t.side.Keys == s.side.Keys + {m.parent})
  {
    assert |s.side| == |s.side.Keys|;
    if m.parent in s.side {
      assert s.side.Keys + {m.parent} == s.side.Keys;
    } else {
      assert |s.side.Keys + {m.parent}| == |s.side.Keys| + 1;
      if |s.side| >= cap && s.side != map[] {
        var k := Least(s.side.Keys);
        var out := ParkEvent(s, cap, m).out;
        assert out[|out| - 1] == Evicted(k, s.side[k]);
        assert !out[|out| - 1].Delivered? && out[|out| - 1] in out;
        assert s.side.Keys != {};
      }
    }
  }

  lemma StepEvictsIff(s: State, cap: nat, a: Arrival, waiting: set<nat>)
    requires NoneEvicted(s.out) && s.side.Keys == waiting && |waiting| <= AtLeastOne(cap)
    ensures var t := Step(s, cap, a);
            var after := match a case Emitted(m) => waiting + {m.parent} case Closed(span) => waiting - {span.id};
            && (NoneEvicted(t.out) <==> |after| <= AtLeastOne(cap))
            && (NoneEvicted(t.out) ==> t.side.Keys == after)
  {
    hide AtLeastOne, ParkEvent;
    assert |s.side| == |s.side.Keys|;
    match a {
      case Emitted(m) => ParkEvictsIff(s, cap, m);
      case Closed(span) => MapSizes(s.side, span.id, []);
    }
  }

  /** No event is pushed out exactly when the waiting spans always fit. */
  lemma {:induction false} NoneEvictedIff(hist: seq<Arrival>, cap: nat)
    ensures NoneEvicted(Play(hist, cap).out) <==> FitsBuffer(hist, cap)
    ensures NoneEvicted(Play(hist, cap).out) ==> Play(hist, cap).side.Keys == Waiting(hist)
  {
    if hist == [] {
      assert hist[..0] == [];
    } else {
      var front, a := hist[..|hist| - 1], hist[|hist| - 1];
      assert hist == front + [a];
      NoneEvictedIff(front, cap);
      FitsSnoc(front, a, cap);
      var s := Play(front, cap);
      if NoneEvicted(s.out) {
        assert front[..|front|] == front;
        StepEvictsIff(s, cap, a, Waiting(front));
      } else {
        StepKeepsOut(s, cap, a);
      }
    }
  }

  lemma StepKeepsOut(s: State, cap: nat, a: Arrival)
    ensures s.out <= Step(s, cap, a).out
  {
  }

  lemma {:induction false} DeliveredWereClosed(hist: seq<Arrival>, cap: nat)
    ensures forall c :: c in Play(hist, cap).out && c.Delivered? ==> Closed(c.span) in hist
  {
    hide Least;
    if hist == [] {
    } else {
      DeliveredWereClosed(hist[..|hist| - 1], cap);
    }
  }

  /** While the waiting spans fit, a span that closes for the first time takes all its events. */
  lemma FittingSpansAreComplete(hist: seq<Arrival>, cap: nat, span: Record)
    requires FitsBuffer(hist, cap) && forall a :: a in hist && a.Closed? ==> a.span.id != span.id
    ensures Parked(Play(hist, cap).side, span.id) == EventsFor(hist, span.id)
  {
    hide Waiting, Play, Gone, EventsFor, Parked;
    NoneEvictedIff(hist, cap);
    DeliveredWereClosed(hist, cap);
    var out := Play(hist, cap).out;
    forall c | c in out ensures c.Delivered? && c.span.id != span.id {
      assert Closed(c.span) in hist;
    }
    NothingGone(out, span.id);
    DeliveredIff(hist, cap, span);
  }

  /** One place, two spans: the first span's event is gone when it closes. */
  lemma CrowdedSpanLosesItsEvent()
    ensures var hist := [Emitted(Message(1, 7)), Emitted(Message(2, 8))]; var span := Record(1, None, []);
            && Play(hist + [Closed(span)], 1).out == [Evicted(1, [7]), Delivered(span, [])]
            && EventsFor(hist, 1) == [7]
  {
    var span := Record(1, None, []);
    var one, two := [Emitted(Message(1, 7))], [Emitted(Message(1, 7)), Emitted(Message(2, 8))];
    assert two == one + [Emitted(Message(2, 8))] && one == [] + [Emitted(Message(1, 7))];
    PlaySnoc([], 1, Emitted(Message(1, 7)));
    var s := Play(one, 1);
    assert s == State(map[1 := [7]], []);
    PlaySnoc(one, 1, Emitted(Message(2, 8)));
    assert Least(s.side.Keys) == 1;
    assert Play(two, 1) == State(map[2 := [8]], [Evicted(1, [7])]);
    PlaySnoc(two, 1, Closed(span));
    assert two[..1] == one && one[..0] == [];
  }

  // ── All events first: the buffer is large enough, or it is not ──

  function AllEmitted(ms: seq<Message>): (r: seq<Arrival>)
    ensures |r| == |ms|
  {
    seq(|ms|, i requires 0 <= i < |ms| => Emitted(ms[i]))
  }

  function AllClosed(spans: seq<Record>): (r: seq<Arrival>)
    ensures |r| == |spans|
  {
    seq(|spans|, i requires 0 <= i < |spans| => Closed(spans[i]))
  }

  function Parents(ms: seq<Message>): set<nat> {
    set m | m in ms :: m.parent
  }

  /** Nothing is evicted while a batch of events is parked exactly when its distinct parents fit. */
  lemma {:induction false} NothingEvictedIff(ms: seq<Message>, cap: nat)
    ensures Play(AllEmitted(ms), cap).out == [] <==> |Parents(ms)| <= AtLeastOne(cap)
    ensures Play(AllEmitted(ms), cap).out == [] ==> Play(AllEmitted(ms), cap).side.Keys == Parents(ms)
  {
    if ms != [] {
      var front, m := ms[..|ms| - 1], ms[|ms| - 1];
      assert ms == front + [m] && AllEmitted(ms) == AllEmitted(front) + [Emitted(m)];
      PlaySnoc(AllEmitted(front), cap, Emitted(m));
      NothingEvictedIff(front, cap);
      assert Parents(ms) == Parents(front) + {m.parent};
      var s := Play(AllEmitted(front), cap);
      assert ParkEvent(s, cap, m).out == [] ==> s.out == [];
      assert |s.side| == |s.side.Keys|;
    } else {
      assert Parents(ms) == {};
    }
  }

  function WithEvents(spans: seq<Record>, events: nat -> seq<nat>): seq<Record> {
    if spans == [] then []
    else
      var s := spans[|spans| - 1];
      WithEvents(spans[..|spans| - 1], events) + [s.(events := s.events + events(s.id))]
  }

  /** Each span, in order, with the given events behind its own. */
  lemma {:induction false} WithEventsIs(spans: seq<Record>, events: nat -> seq<nat>, i: nat)
    requires i < |spans|
    ensures |WithEvents(spans, events)| == |spans|
    ensures WithEvents(spans, events)[i] == Record(spans[i].id, spans[i].parent, spans[i].events + events(spans[i].id))
    decreases |spans|
  {
    if i < |spans| - 1 {
      WithEventsIs(spans[..|spans| - 1], events, i);
    } else if |spans| > 1 {
      WithEventsIs(spans[..|spans| - 1], events, 0);
    }
  }

  /** What was fanned out: every delivered span with its extra events. */
  function FannedOut(out: seq<Chunk>): seq<Record> {
    if out == [] then []
    else
      var c := out[|out| - 1];
      FannedOut(out[..|out| - 1]) + if c.Delivered? then [c.span.(events := c.span.events + c.extra)] else []
  }

  lemma FannedOutSnoc(out: seq<Chunk>, c: Chunk)
    ensures FannedOut(out + [c])
            == FannedOut(out) + if c.Delivered? then [c.span.(events := c.span.events + c.extra)] else []
  {
    assert (out + [c])[..|out|] == out;
  }

  ghost predicate DistinctRecords(spans: seq<Record>) {
    forall i, j :: 0 <= i < j < |spans| ==> spans[i].id != spans[j].id
  }

  lemma {:induction false} NothingGone(out: seq<Chunk>, p: nat)
    requires forall c :: c in out ==> c.Delivered? && c.span.id != p
    ensures Gone(out, p) == []
  {
    if out == [] {
    } else {
      var front := out[..|out| - 1];
      assert out == front + [out[|out| - 1]];
      NothingGone(front, p);
    }
  }

  /** The buffer after parking `ms` and then joining `spans`, when the parents fit. */
  lemma {:induction false} JoinsComplete(ms: seq<Message>, spans: seq<Record>, cap: nat)
    requires |Parents(ms)| <= AtLeastOne(cap) && DistinctRecords(spans)
    ensures var s := Play(AllEmitted(ms) + AllClosed(spans), cap);
            && FannedOut(s.out) == WithEvents(spans, p => EventsFor(AllEmitted(ms), p))
            && (forall c :: c in s.out ==> c.Delivered? && c.span in spans)
    decreases |spans|
  {
    hide Gone, Play, Parents, Least;
    var events := p => EventsFor(AllEmitted(ms), p);
    if spans == [] {
      assert AllEmitted(ms) + AllClosed(spans) == AllEmitted(ms);
      NothingEvictedIff(ms, cap);
    } else {
      var front, last := spans[..|spans| - 1], spans[|spans| - 1];
      assert spans == front + [last];
      var hist := AllEmitted(ms) + AllClosed(front);
      assert AllEmitted(ms) + AllClosed(spans) == hist + [Closed(last)];
      JoinsComplete(ms, front, cap);
      forall s | s in front ensures s.id != last.id {
        var i :| 0 <= i < |front| && front[i] == s;
        assert spans[i].id != spans[|spans| - 1].id;
      }
      var s := Play(hist, cap);
      forall c | c in s.out ensures c.Delivered? && c.span.id != last.id {
        assert c.span in front;
      }
      NothingGone(s.out, last.id);
      DeliveredIff(hist, cap, last);
      EventsStay(AllEmitted(ms), front, last.id);
      FannedOutSnoc(s.out, Delivered(last, Parked(s.side, last.id)));
    }
  }

  lemma {:induction false} EventsStay(hist: seq<Arrival>, spans: seq<Record>, p: nat)
    ensures EventsFor(hist + AllClosed(spans), p) == EventsFor(hist, p)
    decreases |spans|
  {
    if spans == [] {
      assert hist + AllClosed(spans) == hist;
    } else {
      var front := spans[..|spans| - 1];
      assert (hist + AllClosed(spans))[..|hist| + |front|] == hist + AllClosed(front);
      EventsStay(hist, front, p);
    }
  }

  // ── The driver ──

  datatype Verdict = Accepted | Full | Disconnected

  /** Each subscriber takes the whole batch, misses it, or is dropped. */
  function FanOut(subscribers: seq<seq<Record>>, verdicts: seq<Verdict>, batch: seq<Record>): seq<seq<Record>>
    requires |verdicts| == |subscribers|
  {
    if subscribers == [] then []
    else
      var n := |subscribers| - 1;
      FanOut(subscribers[..n], verdicts[..n], batch) +
      match verdicts[n]
      case Accepted => [subscribers[n] + batch]
      case Full => [subscribers[n]]
      case Disconnected => []
  }

  /** How many of the subscribers before `i` are kept. */
  function KeptBefore(verdicts: seq<Verdict>, i: nat): nat
    requires i <= |verdicts|
  {
    if i == 0 then 0 else KeptBefore(verdicts, i - 1) + if verdicts[i - 1] == Disconnected then 0 else 1
  }

  /** Kept subscribers stay in order; each has the whole batch at the end of its queue, or its old
      queue. */
  lemma {:induction false} FanOutIsAllOrNothing(subs: seq<seq<Record>>, verdicts: seq<Verdict>, batch: seq<Record>,
                                                i: nat)
    requires |verdicts| == |subs| && i < |subs| && verdicts[i] != Disconnected
    ensures |FanOut(subs, verdicts, batch)| == KeptBefore(verdicts, |subs|)
    ensures KeptBefore(verdicts, i) < KeptBefore(verdicts, |subs|)
    ensures FanOut(subs, verdicts, batch)[KeptBefore(verdicts, i)]
            == if verdicts[i] == Accepted then subs[i] + batch else subs[i]
    decreases |subs|
  {
    hide FanOut, KeptBefore;
    FanOutSize(subs, verdicts, batch);
    var n := |subs| - 1;
    var front := FanOut(subs[..n], verdicts[..n], batch);
    FanOutSize(subs[..n], verdicts[..n], batch);
    KeptPrefix(verdicts, n, n);
    KeptPrefix(verdicts, n, i);
    FanOutSnoc(subs, verdicts, batch);
    KeptStep(verdicts, n);
    if i < n {
      FanOutIsAllOrNothing(subs[..n], verdicts[..n], batch, i);
      assert FanOut(subs, verdicts, batch)[KeptBefore(verdicts, i)] == front[KeptBefore(verdicts, i)];
    }
  }

  lemma KeptStep(verdicts: seq<Verdict>, i: nat)
    requires i < |verdicts|
    ensures KeptBefore(verdicts, i + 1) == KeptBefore(verdicts, i) + if verdicts[i] == Disconnected then 0 else 1
  {
  }

  lemma FanOutSnoc(subs: seq<seq<Record>>, verdicts: seq<Verdict>, batch: seq<Record>)
    requires |verdicts| == |subs| > 0
    ensures var n := |subs| - 1; var front := FanOut(subs[..n], verdicts[..n], batch);
            FanOut(subs, verdicts, batch) == match verdicts[n]
              case Accepted => front + [subs[n] + batch]
              case Full => front + [subs[n]]
              case Disconnected => front
  {
  }

  lemma {:induction false} FanOutSize(subs: seq<seq<Record>>, verdicts: seq<Verdict>, batch: seq<Record>)
    requires |verdicts| == |subs|
    ensures |FanOut(subs, verdicts, batch)| == KeptBefore(verdicts, |subs|)
  {
    if subs == [] {
    } else {
      var n := |subs| - 1;
      FanOutSize(subs[..n], verdicts[..n], batch);
      KeptPrefix(verdicts, n, n);
    }
  }

  lemma {:induction false} KeptPrefix(verdicts: seq<Verdict>, n: nat, i: nat)
    requires i <= n <= |verdicts|
    ensures KeptBefore(verdicts[..n], i) == KeptBefore(verdicts, i)
  {
    if i == 0 {
    } else {
      KeptPrefix(verdicts, n, i - 1);
    }
  }

  class Driver {
    const capacity: nat
    var sideEvents: Side
    var subscribers: seq<seq<Record>>
    /** Everything received so far, and everything offered to the subscribers. */
    ghost var hist: seq<Arrival>
    ghost var offered: seq<Record>

    ghost predicate Valid()
      reads this
    {
      var s := Play(hist, capacity);
      sideEvents == s.side && offered == FannedOut(s.out)
    }

    constructor (cap: nat, subs: seq<seq<Record>>)
      ensures Valid() && capacity == cap && subscribers == subs && hist == [] && offered == []
    {
      capacity, sideEvents, subscribers, hist, offered := cap, map[], subs, [], [];
    }

    method FlushEventBatch(batch: seq<Message>)
      requires Valid()
      modifies this`sideEvents, this`hist
      ensures Valid() && hist == old(hist) + AllEmitted(batch)
    {
      hide Play, FannedOut, Least;
      assert hist + AllEmitted(batch[..0]) == hist;
      for i := 0 to |batch|
        invariant Valid() && hist == old(hist) + AllEmitted(batch[..i])
      {
        var m := batch[i];
        ghost var s := Play(hist, capacity);
        PlaySnoc(hist, capacity, Emitted(m));
        if m.parent in sideEvents {
          sideEvents := sideEvents[m.parent := sideEvents[m.parent] + [m.body]];
        } else {
          if |sideEvents| >= capacity {
            if sideEvents != map[] {
              var oldest := Least(sideEvents.Keys);
              FannedOutSnoc(s.out, Evicted(oldest, sideEvents[oldest]));
              assert FannedOut(s.out) + [] == FannedOut(s.out);
              sideEvents := sideEvents - {oldest};
            }
          }
          sideEvents := sideEvents[m.parent := [m.body]];
        }
        hist := hist + [Emitted(m)];
        assert AllEmitted(batch[..i + 1]) == AllEmitted(batch[..i]) + [Emitted(m)];
      }
      assert batch[..|batch|] == batch;
    }

    method FlushSpanBatch(batch: seq<Record>, verdicts: seq<Verdict>) returns (prepared: seq<Record>)
      requires Valid() && |verdicts| == |subscribers|
      modifies this
      ensures Valid() && hist == old(hist) + AllClosed(batch) && offered == old(offered) + prepared
      ensures subscribers == if batch == [] then old(subscribers) else FanOut(old(subscribers), verdicts, prepared)
    {
      hide Play, FannedOut;
      prepared := [];
      var anySide := sideEvents != map[];
      assert hist + AllClosed(batch[..0]) == hist;
      for i := 0 to |batch|
        invariant Valid() && hist == old(hist) + AllClosed(batch[..i]) && offered == old(offered) + prepared
        invariant subscribers == old(subscribers) && (anySide || sideEvents == map[])
      {
        var span := batch[i];
        ghost var s := Play(hist, capacity);
        PlaySnoc(hist, capacity, Closed(span));
        FannedOutSnoc(s.out, Delivered(span, Parked(s.side, span.id)));
        var joined := span;
        if anySide && span.id in sideEvents {
          joined := span.(events := span.events + sideEvents[span.id]);
          sideEvents := sideEvents - {span.id};
        } else {
          assert span.events + [] == span.events && sideEvents - {span.id} == sideEvents;
        }
        prepared := prepared + [joined];
        hist := hist + [Closed(span)];
        offered := offered + [joined];
        assert AllClosed(batch[..i + 1]) == AllClosed(batch[..i]) + [Closed(span)];
      }
      assert batch[..|batch|] == batch;
      if batch != [] {
        subscribers := FanOut(subscribers, verdicts, prepared);
      }
    }

    /** Drains both channels, events first. */
    method DrainSync(events: seq<Message>, spans: seq<Record>, verdicts: seq<Verdict>) returns (prepared: seq<Record>)
      requires Valid() && hist == [] && |verdicts| == |subscribers|
      modifies this
      ensures Valid() && hist == AllEmitted(events) + AllClosed(spans) && offered == prepared
      ensures DistinctRecords(spans) && |Parents(events)| <= AtLeastOne(capacity) ==>
        prepared == WithEvents(spans, p => EventsFor(AllEmitted(events), p))
    {
      hide Play, FannedOut, Parents, WithEvents, EventsFor;
      NothingOffered();
      FlushEventBatch(events);
      assert offered == [];
      prepared := FlushSpanBatch(spans, verdicts);
      assert [] + AllEmitted(events) == AllEmitted(events);
      if DistinctRecords(spans) && |Parents(events)| <= AtLeastOne(capacity) {
        JoinsComplete(events, spans, capacity);
      }
    }

    lemma NothingOffered()
      requires Valid() && hist == []
      ensures offered == []
    {
    }
  }
}
