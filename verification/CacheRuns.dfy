/** Runs of the cache that get somewhere: a span can be opened while its lane has room, and the
    crossed exit is reached from a new cache. */
module CacheRuns {
  import opened Spans
  import opened Records
  import opened TracingIds
  import opened SpanCache

  lemma {:induction false} RunConcat(c: Cache, a: seq<Move>, d: Cache, b: seq<Move>)
    requires Inv(c) && Run(c, a) == Some(d)
    ensures Inv(d) && Run(c, a + b) == Run(d, b)
    decreases |b|
  {
    hide Inv, Enabled, Next;
    if b == [] {
      assert a + b == a;
    } else {
      var front := b[..|b| - 1];
      assert (a + b)[..|a + b| - 1] == a + front;
      RunConcat(c, a, d, front);
    }
  }

  /** One more enabled move. */
  lemma MoveOn(c: Cache, moves: seq<Move>, d: Cache, t: nat, step: Step) returns (e: Cache, more: seq<Move>)
    requires Inv(c) && Run(c, moves) == Some(d) && Inv(d) && Enabled(d, t, step)
    ensures more == moves + [Move(t, step)] && e == Next(d, t, step) && Run(c, more) == Some(e) && Inv(e)
  {
    hide Inv, Enabled, Next;
    RunSnoc(c, moves, Move(t, step), d);
    e, more := Next(d, t, step), moves + [Move(t, step)];
  }

  lemma {:induction false} RoomMeansVacant(slots: seq<Option<Record>>, cap: nat) returns (slot: nat)
    requires LiveCount(slots) < cap
    ensures Vacant(slots, slot)
  {
    if i: nat :| i < |slots| && slots[i].None? {
      slot := i;
    } else {
      slot := |slots|;
    }
  }

  lemma {:induction false} FillCounts(slots: seq<Option<Record>>, slot: nat, r: Record)
    requires Vacant(slots, slot)
    ensures LiveCount(if slot < |slots| then slots[slot := Some(r)] else slots + [Some(r)]) == LiveCount(slots) + 1
    decreases |slots|
  {
    if slot == |slots| {
      assert (slots + [Some(r)])[..|slots|] == slots;
    } else {
      var n := |slots| - 1;
      if slot == n {
        assert slots[slot := Some(r)][..n] == slots[..n];
      } else {
        FillCounts(slots[..n], slot, r);
        assert slots[slot := Some(r)][..n] == slots[..n][slot := Some(r)];
      }
    }
  }

  /** What opening a span changes for its thread and its lane. */
  ghost predicate Opened(c: Cache, d: Cache, t: nat, id: nat, parent: Option<nat>) {
    && d.keys == c.keys && d.bits == c.bits && d.cap == c.cap && |d.lanes| == |c.lanes|
    && d.stacks == c.stacks && d.entered == c.entered
    && t < |d.phases| && d.phases[t].Idle?
    && id !in c.open && d.open == c.open + {id}
    && |d.log| == |c.log| + 1 && d.log[..|c.log|] == c.log && d.log[|c.log|].parent == parent
    && t < |c.keys| && |c.lanes| > 0
    && LiveCount(d.lanes[LaneOf(d, t)].slots) == LiveCount(c.lanes[LaneOf(c, t)].slots) + 1
  }

  /** A thread that is idle, with a parent for its span and room in its lane, opens it in five moves. */
  lemma SpanOpens(c: Cache, t: nat, how: Parenting) returns (moves: seq<Move>, d: Cache, id: nat)
    requires Inv(c) && Enabled(c, t, Resolve(how)) && ParentFor(c, t, how).Some?
    requires LiveCount(c.lanes[LaneOf(c, t)].slots) < c.cap
    ensures Run(c, moves) == Some(d) && Inv(d) && Opened(c, d, t, id, ParentFor(c, t, how).value)
  {
    hide Inv, LiveCount, Decode, Encode, Run, ParentFor;
    RunNothing(c);
    InvShaped(c);
    var lane, p := LaneOf(c, t), ParentFor(c, t, how).value;
    var c1, m1 := MoveOn(c, [], c, t, Resolve(how));
    InvShaped(c1);
    var c2, m2 := MoveOn(c, m1, c1, t, Number);
    InvShaped(c2);
    var slot := RoomMeansVacant(c.lanes[lane].slots, c.cap);
    var rec := c2.phases[t].rec;
    FillCounts(c.lanes[lane].slots, slot, rec);
    var c3, m3 := MoveOn(c, m2, c2, t, Insert(slot));
    InvShaped(c3);
    var c4, m4 := MoveOn(c, m3, c3, t, Store);
    InvShaped(c4);
    id := Encode(c4.bits, Addr(LaneOf(c4, t), slot));
    PublishNamesTheSpan(c4, t);
    d, moves := MoveOn(c, m4, c4, t, Publish);
    InvShaped(d);
  }

  lemma SmallShift()
    ensures Pow2(0) == 1 && LaneBits(1) == 0 && Pow2(Shift(0)) >= 4
  {
    PowAdds(2, 61);
  }

  lemma SmallCache()
    ensures var c := Fresh(1, 2, [0]);
            && c.cap == 2 && c.bits == 0 && |c.lanes| == 1 && Inv(c)
            && |c.keys| == 1 && InStep(c, 0) && c.stacks[0] == [] && c.phases[0].Idle?
            && LiveCount(c.lanes[LaneOf(c, 0)].slots) == 0
    ensures Fresh(1, 2, [0]).cap + SLAB_OFFSET <= Pow2(Shift(LaneBits(1)))
  {
    hide Inv, Pow2, LaneBits;
    SmallShift();
    FreshInv(1, 2, [0]);
  }

  lemma OpenIsEnabled(c: Cache, id: nat)
    requires Inv(c) && id in c.open
    ensures id != DISABLED
  {
    hide IdsInv, LineageInv, PlaceInv, OpsInv, Decode, Encode;
    assert OpenOk(c, id);
  }

  /** A new cache, one thread: one span opened and entered. */
  lemma OneEntered() returns (moves: seq<Move>, d: Cache, x: nat)
    ensures Inv(Fresh(1, 2, [0])) && Run(Fresh(1, 2, [0]), moves) == Some(d) && Inv(d)
    ensures d.cap == 2 && |d.keys| == 1 && d.phases[0].Idle? && x in d.open && x != DISABLED
    ensures |d.lanes| > 0 && LiveCount(d.lanes[LaneOf(d, 0)].slots) == 1
    ensures |d.stacks[0]| == 1 && d.stacks[0][0].tracingId == x && d.stacks[0] == d.entered[0]
  {
    hide Inv, LiveCount, Decode, Encode, Run, Fresh, NamedId;
    SmallCache();
    var c := Fresh(1, 2, [0]);
    var m1, c1, id := SpanOpens(c, 0, Root);
    OpenIsEnabled(c1, id);
    InvShaped(c1);
    EnterRuns(c, m1, c1, 0, id);
    x, moves := id, m1 + [Move(0, Enter(id))];
    d := c1.(stacks := c1.stacks[0 := c1.stacks[0] + [Stacked(id, NamedId(c1, id))]],
             entered := c1.entered[0 := c1.entered[0] + [Stacked(id, NamedId(c1, id))]]);
    InvShaped(d);
  }

  /** ... then a second span opened inside it, and the first left again. */
  lemma TwoOpen() returns (moves: seq<Move>, d: Cache, x: nat, y: nat)
    ensures Inv(Fresh(1, 2, [0])) && Run(Fresh(1, 2, [0]), moves) == Some(d) && Inv(d)
    ensures |d.keys| == 1 && d.phases[0].Idle? && InStep(d, 0) && x != y && x in d.open && y in d.open
  {
    hide Inv, LiveCount, Decode, Encode, Run, Fresh, NamedId, Forget, Popped;
    var m1, c1, x1 := OneEntered();
    InvShaped(c1);
    var c := Fresh(1, 2, [0]);
    var m2, c2, y1 := SpanOpens(c1, 0, Contextual);
    RunConcat(c, m1, c1, m2);
    InvShaped(c2);
    d, moves := MoveOn(c, m1 + m2, c2, 0, Exit(x1));
    InvShaped(d);
    x, y := x1, y1;
    assert c2.stacks[0] == [c2.stacks[0][0]];
    LeaveOnly(c2.stacks[0][0]);
  }

  /** A new cache, one thread, two spans: the crossed exit is reached. */
  lemma CrossedExitReached() returns (moves: seq<Move>, d: Cache, a: nat, b: nat)
    ensures Reaches(1, 2, [0], moves, d) && Shaped(d) && |d.keys| == 1
    ensures ParentFor(d, 0, Contextual) == Some(Some(a)) && a != b
    ensures IsMeant(d, 0, Contextual, Some(b)) && !IsMeant(d, 0, Contextual, Some(a))
  {
    hide Inv, LiveCount, Decode, Encode, Run, Fresh, NamedId, IsMeant, ParentFor;
    SmallCache();
    var m, c, x, y := TwoOpen();
    InvShaped(c);
    CrossedExitMisleads(c, 0, x, y);
    var more := [Move(0, Enter(x)), Move(0, Enter(y)), Move(0, Exit(x))];
    RunConcat(Fresh(1, 2, [0]), m, c, more);
    moves, d, a, b := m + more, Run(c, more).value, NamedId(c, x), NamedId(c, y);
    InvShaped(d);
  }

  lemma LeaveOnly(x: Stacked)
    ensures Popped([x]) == [] && Forget([x], x.tracingId) == []
  {
  }
}
