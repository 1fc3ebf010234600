/** From the instrumented program to the subscribers, for one thread of any run of the cache. */
module Delivery {
  import opened Records
  import opened EventJoin
  import opened ThreadState
  import SpanCache

  lemma ThreadClosesDistinct(c: SpanCache.Cache, t: nat)
    requires SpanCache.Inv(c) && t < |c.ops|
    ensures DistinctRecords(Closings(c.ops[t]))
    ensures |c.ops| == 1 ==> Closings(c.ops[t]) == c.closed
  {
    hide SpanCache.IdsInv, SpanCache.SlotsInv, SpanCache.PhaseOk, SpanCache.StackOk, SpanCache.Live, SpanCache.At;
    var spans := Closings(c.ops[t]);
    assert SpanCache.OpsOk(c.log, c.closed, c.ops[t]);
    forall i, j | 0 <= i < j < |spans| ensures spans[i].id != spans[j].id {
      assert spans[i] in spans && spans[j] in spans;
      SpanCache.RecordsDiffer(c.log, spans[i], spans[j]);
    }
  }

  /** What one thread emitted and closed in a run of the cache, flushed and drained with no channel
      full: each span it closed is delivered once, in close order, with exactly the events the thread
      emitted for it, in order, if the spans it emitted for fit the side buffer.  With one thread in
      all, these are all the closed spans. */
  method DeliverThread(laneCount: nat, capacity: nat, keys: seq<nat>, ghost moves: seq<SpanCache.Move>,
                       c: SpanCache.Cache, t: nat, pendingBatch: nat, sideCapacity: nat)
    returns (delivered: seq<Record>)
    requires SpanCache.Reaches(laneCount, capacity, keys, moves, c) && t < |c.ops|
    ensures |Parents(Emissions(c.ops[t]))| <= AtLeastOne(sideCapacity) ==>
      delivered == WithEvents(Closings(c.ops[t]), p => EventsFor(c.ops[t], p))
    ensures |c.ops| == 1 ==> Closings(c.ops[t]) == c.closed
    ensures forall i :: 0 <= i < |c.ops[t]| && c.ops[t][i].Emitted? ==> SpanCache.Logged(c.log, c.ops[t][i].m.parent)
  {
    hide SpanCache.Inv, SpanCache.Reaches, Parents, WithEvents, EventsFor, Closings, Emissions;
    SpanCache.ReachesInv(laneCount, capacity, keys, moves, c);
    ThreadClosesDistinct(c, t);
    SpanCache.EventsAreLogged(c, t);
    delivered := RunAndDrain(c.ops[t], pendingBatch, sideCapacity);
  }

  lemma NoRepeats<T>(spans: seq<T>, closed: seq<T>)
    requires multiset(spans) == multiset(closed) && forall i, j :: 0 <= i < j < |closed| ==> closed[i] != closed[j]
    ensures forall i, j :: 0 <= i < j < |spans| ==> spans[i] != spans[j]
  {
    forall i, j | 0 <= i < j < |spans| ensures spans[i] != spans[j] {
      var x := spans[j];
      if spans[i] == x {
        assert spans == spans[..j] + [x] + spans[j + 1..] && spans[..j][i] == x;
        assert multiset(spans) == multiset(spans[..j]) + multiset{x} + multiset(spans[j + 1..]);
        assert x in closed by { assert x in multiset(closed); }
        OccursOnce(closed, x);
      }
    }
  }

  lemma OccursOnce<T>(closed: seq<T>, x: T)
    requires x in closed && forall i, j :: 0 <= i < j < |closed| ==> closed[i] != closed[j]
    ensures multiset(closed)[x] == 1
  {
    var k :| 0 <= k < |closed| && closed[k] == x;
    assert closed == closed[..k] + [x] + closed[k + 1..];
    assert multiset(closed) == multiset(closed[..k]) + multiset{x} + multiset(closed[k + 1..]);
    assert x !in closed[..k] && x !in closed[k + 1..];
  }

  lemma ClosedDistinct(c: SpanCache.Cache, spans: seq<Record>)
    requires SpanCache.Inv(c) && multiset(spans) == multiset(c.closed)
    ensures DistinctRecords(spans)
  {
    hide SpanCache.IdsInv, SpanCache.SlotsInv, SpanCache.PhaseOk, SpanCache.StackOk, SpanCache.Live, SpanCache.At,
         SpanCache.OpsInv;
    NoRepeats(spans, c.closed);
    forall i, j | 0 <= i < j < |spans| ensures spans[i].id != spans[j].id {
      assert spans[i] in multiset(c.closed) && spans[j] in multiset(c.closed);
      assert spans[i] in c.closed && spans[j] in c.closed;
      SpanCache.RecordsDiffer(c.log, spans[i], spans[j]);
    }
  }

  /** A run of any number of threads, drained at its end: the closed spans reach the span channel in
      some order, and any messages the event channel.  Each span is delivered once with exactly the
      messages addressed to it, in channel order, if the addressed spans fit the side buffer. */
  method DeliverAll(laneCount: nat, capacity: nat, keys: seq<nat>, ghost moves: seq<SpanCache.Move>,
                    ghost c: SpanCache.Cache, events: seq<Message>, spans: seq<Record>, sideCapacity: nat)
    returns (delivered: seq<Record>)
    requires SpanCache.Reaches(laneCount, capacity, keys, moves, c) && multiset(spans) == multiset(c.closed)
    ensures |Parents(events)| <= AtLeastOne(sideCapacity) ==>
      delivered == WithEvents(spans, p => EventsFor(AllEmitted(events), p))
  {
    hide SpanCache.Inv, SpanCache.Reaches, Parents, WithEvents, EventsFor, DistinctRecords, Driver.Valid;
    SpanCache.ReachesInv(laneCount, capacity, keys, moves, c);
    ClosedDistinct(c, spans);
    var d := new Driver(sideCapacity, []);
    delivered := d.DrainSync(events, spans, []);
  }
}
