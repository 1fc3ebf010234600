/** One thread's pending buffers, and the way of its spans and events to the subscribers. */
module ThreadState {
  import opened Records
  import opened EventJoin

  /** One batch a channel took. */
  datatype Sent = SentEvents(events: seq<Message>) | SentSpans(spans: seq<Record>)

  class ThreadBuffers {
    const pendingBatch: nat
    var pendingSpans: seq<Record>
    var pendingEvents: seq<Message>
    var spanChannel: seq<Record>
    var eventChannel: seq<Message>
    /** Everything this thread emitted and closed, and whether a full channel refused a batch. */
    ghost var emitted: seq<Message>
    ghost var closed: seq<Record>
    ghost var refused: bool
    /** The batches the two channels took, in the order they took them. */
    ghost var sends: seq<Sent>

    /** Nothing is lost or reordered on the way to the channels. */
    ghost predicate Valid()
      reads this
    {
      !refused ==>
        && eventChannel + pendingEvents == emitted
        && spanChannel + pendingSpans == closed
    }

    constructor (batch: nat)
      ensures Valid() && emitted == [] && closed == [] && !refused && sends == [] && pendingBatch == batch
    {
      pendingBatch := batch;
      pendingSpans, pendingEvents, spanChannel, eventChannel := [], [], [], [];
      emitted, closed, refused, sends := [], [], false, [];
    }

    /** Sends both buffers, events first; a full channel refuses a whole batch, which is dropped. */
    method FlushPending(eventsFull: bool, spansFull: bool)
      requires Valid()
      modifies this
      ensures Valid() && emitted == old(emitted) && closed == old(closed)
      ensures pendingSpans == [] && pendingEvents == []
      ensures eventChannel == old(eventChannel) + (if eventsFull then [] else old(pendingEvents))
      ensures spanChannel == old(spanChannel) + (if spansFull then [] else old(pendingSpans))
      ensures refused ==
        (old(refused) || (eventsFull && old(pendingEvents) != []) || (spansFull && old(pendingSpans) != []))
      ensures sends == old(sends)
        + (if eventsFull || old(pendingEvents) == [] then [] else [SentEvents(old(pendingEvents))])
        + (if spansFull || old(pendingSpans) == [] then [] else [SentSpans(old(pendingSpans))])
    {
      if pendingEvents != [] {
        if eventsFull {
          refused := true;
        } else {
          eventChannel := eventChannel + pendingEvents;
          sends := sends + [SentEvents(pendingEvents)];
        }
        pendingEvents := [];
      }
      if pendingSpans != [] {
        if spansFull {
          refused := true;
        } else {
          spanChannel := spanChannel + pendingSpans;
          sends := sends + [SentSpans(pendingSpans)];
        }
        pendingSpans := [];
      }
    }

    method Emit(m: Message, eventsFull: bool, spansFull: bool)
      requires Valid()
      modifies this
      ensures Valid() && emitted == old(emitted) + [m] && closed == old(closed)
      ensures old(refused) ==> refused
      ensures !eventsFull && !spansFull ==> refused == old(refused)
      ensures |old(pendingEvents)| < pendingBatch ==> |pendingEvents| < pendingBatch
    {
      pendingEvents, emitted := pendingEvents + [m], emitted + [m];
      if |pendingEvents| >= pendingBatch {
        FlushPending(eventsFull, spansFull);
      }
    }

    method Close(span: Record, eventsFull: bool, spansFull: bool)
      requires Valid()
      modifies this
      ensures Valid() && closed == old(closed) + [span] && emitted == old(emitted)
      ensures old(refused) ==> refused
      ensures !eventsFull && !spansFull ==> refused == old(refused)
      ensures |old(pendingSpans)| < pendingBatch ==> |pendingSpans| < pendingBatch
    {
      pendingSpans, closed := pendingSpans + [span], closed + [span];
      if |pendingSpans| >= pendingBatch {
        FlushPending(eventsFull, spansFull);
      }
    }
  }

  function Emissions(ops: seq<Arrival>): seq<Message> {
    if ops == [] then []
    else
      var a := ops[|ops| - 1];
      Emissions(ops[..|ops| - 1]) + if a.Emitted? then [a.m] else []
  }

  function Closings(ops: seq<Arrival>): seq<Record> {
    if ops == [] then []
    else
      var a := ops[|ops| - 1];
      Closings(ops[..|ops| - 1]) + if a.Closed? then [a.span] else []
  }

  lemma EmissionsSnoc(ops: seq<Arrival>, a: Arrival)
    ensures Emissions([]) == [] && Emissions(ops + [a]) == Emissions(ops) + if a.Emitted? then [a.m] else []
  {
    assert (ops + [a])[..|ops|] == ops;
  }

  lemma ClosingsSnoc(ops: seq<Arrival>, a: Arrival)
    ensures Closings(ops + [a]) == Closings(ops) + if a.Closed? then [a.span] else []
  {
    assert (ops + [a])[..|ops|] == ops;
  }

  /** A single-threaded run, flushed and drained with no channel full: every closed span is
      delivered once, in close order, with exactly its own events in emission order. */
  method RunAndDrain(ops: seq<Arrival>, pendingBatch: nat, capacity: nat) returns (delivered: seq<Record>)
    ensures DistinctRecords(Closings(ops)) && |Parents(Emissions(ops))| <= AtLeastOne(capacity) ==>
      delivered == WithEvents(Closings(ops), p => EventsFor(ops, p))
  {
    hide DistinctRecords, Parents, WithEvents, Driver.Valid;
    var t := new ThreadBuffers(pendingBatch);
    for i := 0 to |ops|
      invariant fresh(t) && t.Valid() && !t.refused
      invariant t.emitted == Emissions(ops[..i]) && t.closed == Closings(ops[..i])
    {
      assert ops[..i + 1][..i] == ops[..i];
      match ops[i] {
        case Emitted(m) => t.Emit(m, false, false);
        case Closed(span) => t.Close(span, false, false);
      }
    }
    assert ops[..|ops|] == ops;
    t.FlushPending(false, false);
    var d := new Driver(capacity, []);
    delivered := d.DrainSync(t.eventChannel, t.spanChannel, []);
    forall p ensures EventsFor(AllEmitted(Emissions(ops)), p) == EventsFor(ops, p) {
      SameEvents(ops, p);
    }
    SameWithEvents(Closings(ops), p => EventsFor(AllEmitted(Emissions(ops)), p), p => EventsFor(ops, p));
  }

  lemma {:induction false} SameEvents(ops: seq<Arrival>, p: nat)
    ensures EventsFor(AllEmitted(Emissions(ops)), p) == EventsFor(ops, p)
  {
    if ops == [] {
    } else {
      var front, a := ops[..|ops| - 1], ops[|ops| - 1];
      SameEvents(front, p);
      if a.Emitted? {
        var ms := AllEmitted(Emissions(front));
        assert AllEmitted(Emissions(front) + [a.m]) == ms + [a];
        assert (ms + [a])[..|ms|] == ms;
      } else {
        assert Emissions(front) + [] == Emissions(front);
        assert EventsFor(front, p) + [] == EventsFor(front, p);
      }
    }
  }

  lemma {:induction false} SameWithEvents(spans: seq<Record>, f: nat -> seq<nat>, g: nat -> seq<nat>)
    requires forall p :: f(p) == g(p)
    ensures WithEvents(spans, f) == WithEvents(spans, g)
  {
    if spans == [] {
    } else {
      SameWithEvents(spans[..|spans| - 1], f, g);
    }
  }
}
