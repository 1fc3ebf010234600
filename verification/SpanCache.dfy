/** The span cache as its threads see it: every atomic step of every thread, freely interleaved. */
module SpanCache {
  import opened Spans
  import opened Records
  import opened TracingIds
  import EventJoin
  import ThreadState
  import Forest
  import Reference

  /** Ids are reserved from the shared counter this many at a time. */
  const ID_BATCH: nat := 1024

  datatype Lane = Lane(slots: seq<Option<Record>>, sidecar: seq<nat>)

  datatype Stacked = Stacked(tracingId: nat, actualId: nat)

  /** Where a thread stands inside `new_span`. */
  datatype Phase =
    | Idle
    | Resolved(parent: Option<nat>)
    | Numbered(rec: Record)
    | Slotted(rec: Record, slot: nat)
    | Ready(rec: Record, slot: nat)

  /** Shared state, then the thread-local cells by thread, then what has happened so far. */
  datatype Cache = Cache(
    bits: nat, cap: nat, lanes: seq<Lane>, highWater: nat,
    keys: seq<nat>, cursors: seq<nat>, stacks: seq<seq<Stacked>>, phases: seq<Phase>,
    open: set<nat>, owner: seq<nat>, handed: seq<seq<nat>>, log: seq<Record>, closed: seq<Record>,
    ops: seq<seq<EventJoin.Arrival>>, entered: seq<seq<Stacked>>)

  datatype Parenting = Contextual | Root | Explicit(tracingId: nat)

  datatype Step =
    | Resolve(how: Parenting) | Refuse | Number | Insert(slot: nat) | Store | Publish
    | Enter(tracingId: nat) | Exit(tracingId: nat) | Close(tracingId: nat) | Emit(how: Parenting, body: nat)

  /** A new cache; the slab of each lane starts empty. */
  function Fresh(laneCount: nat, capacity: nat, keys: seq<nat>): Cache {
    var bits := LaneBits(laneCount);
    var cap := (capacity + Pow2(bits) - 1) / Pow2(bits);
    Cache(bits, cap, seq(Pow2(bits), _ => Lane([], seq(cap, _ => 0))), ID_BATCH,
          keys, seq(|keys|, _ => 0), seq(|keys|, _ => []), seq(|keys|, _ => Idle),
          {}, [], seq(|keys|, _ => []), [], [], seq(|keys|, _ => []), seq(|keys|, _ => []))
  }

  /** One entry per thread, one lane per lane number, and addresses that fit the tracing id. */
  ghost predicate Shaped(c: Cache) {
    && c.bits <= 8 && |c.lanes| == Pow2(c.bits) && c.cap + SLAB_OFFSET <= Pow2(Shift(c.bits))
    && |c.keys| == |c.cursors| == |c.stacks| == |c.phases| == |c.handed| == |c.ops| == |c.entered|
    && forall l :: 0 <= l < |c.lanes| ==> |c.lanes[l].sidecar| == c.cap && |c.lanes[l].slots| <= c.cap
  }

  function LaneOf(c: Cache, t: nat): nat
    requires t < |c.keys| && |c.lanes| > 0
  {
    c.keys[t] % |c.lanes|
  }

  predicate Live(lanes: seq<Lane>, a: Addr) {
    a.lane < |lanes| && a.slot < |lanes[a.lane].slots| && lanes[a.lane].slots[a.slot].Some?
  }

  function At(lanes: seq<Lane>, a: Addr): Record
    requires Live(lanes, a)
  {
    lanes[a.lane].slots[a.slot].value
  }

  function LiveCount(slots: seq<Option<Record>>): nat {
    if slots == [] then 0
    else LiveCount(slots[..|slots| - 1]) + if slots[|slots| - 1].Some? then 1 else 0
  }

  /** A slab reuses a vacant slot if it has one and grows otherwise; which one is left open. */
  predicate Vacant(slots: seq<Option<Record>>, slot: nat) {
    (slot < |slots| && slots[slot].None?) || (slot == |slots| && forall i :: 0 <= i < |slots| ==> slots[i].Some?)
  }

  /** The threads' protocol: a thread finishes `new_span` before it does anything else, and uses a
      tracing id only while that span is open. */
  ghost predicate Enabled(c: Cache, t: nat, step: Step)
    requires Shaped(c)
  {
    t < |c.keys| &&
    match step
    case Resolve(how) => c.phases[t].Idle? && (how.Explicit? ==> how.tracingId == DISABLED || how.tracingId in c.open)
    case Refuse => c.phases[t].Resolved?
    case Number => c.phases[t].Resolved?
    case Insert(slot) =>
      c.phases[t].Numbered? &&
      (LiveCount(c.lanes[LaneOf(c, t)].slots) < c.cap ==> Vacant(c.lanes[LaneOf(c, t)].slots, slot))
    case Store => c.phases[t].Slotted?
    case Publish => c.phases[t].Ready?
    case Enter(id) => c.phases[t].Idle? && (id == DISABLED || id in c.open)
    case Exit(_) => c.phases[t].Idle?
    case Close(id) => c.phases[t].Idle? && (id == DISABLED || id in c.open)
    case Emit(how, _) => c.phases[t].Idle? && (how.Explicit? ==> how.tracingId == DISABLED || how.tracingId in c.open)
  }

  function Sidecar(lanes: seq<Lane>, a: Addr): nat {
    if a.lane < |lanes| && a.slot < |lanes[a.lane].sidecar| then lanes[a.lane].sidecar[a.slot] else 0
  }

  /** The parent a new span gets, or None when it is to be disabled. */
  function ParentFor(c: Cache, t: nat, how: Parenting): Option<Option<nat>>
    requires t < |c.stacks| && c.bits <= 8
  {
    var stack := c.stacks[t];
    match how
    case Contextual =>
      if stack == [] || stack[|stack| - 1].tracingId == DISABLED then None else Some(Some(stack[|stack| - 1].actualId))
    case Root => if stack != [] then None else Some(None)
    case Explicit(id) =>
      match Decode(c.bits, id)
      case None => None
      case Some(a) => Some(Some(Sidecar(c.lanes, a)))
  }

  /** An event knows only two cases: a parent it names, or the innermost entered span. */
  function ForEvent(how: Parenting): Parenting {
    if how.Explicit? then how else Contextual
  }

  /** The span an event belongs to, or None when it is dropped. */
  function EventParent(c: Cache, t: nat, how: Parenting): Option<nat>
    requires t < |c.stacks| && c.bits <= 8
  {
    var p := ParentFor(c, t, ForEvent(how));
    if p.Some? then p.value else None
  }

  /** Adds to what the thread has emitted and closed, which its pending buffers carry onwards. */
  function WithOp(c: Cache, t: nat, a: EventJoin.Arrival): Cache
    requires t < |c.ops|
  {
    c.(ops := c.ops[t := c.ops[t] + [a]])
  }

  /** The id of the record an open tracing id leads to; zero for a disabled span. */
  function NamedId(c: Cache, id: nat): nat
    requires c.bits <= 8
  {
    var d := Decode(c.bits, id);
    if d.Some? && Live(c.lanes, d.value) then At(c.lanes, d.value).id else 0
  }

  /** The cache's exit: whatever is on top goes, whichever span was exited. */
  function Popped(stack: seq<Stacked>): seq<Stacked> {
    if stack == [] then [] else stack[..|stack| - 1]
  }

  /** The spans still entered once `id` is exited: its last entry goes, wherever it stands. */
  function Forget(entered: seq<Stacked>, id: nat): seq<Stacked> {
    if entered == [] then []
    else
      var n := |entered| - 1;
      if entered[n].tracingId == id then entered[..n] else Forget(entered[..n], id) + [entered[n]]
  }

  function WithPhase(c: Cache, t: nat, p: Phase): Cache
    requires t < |c.phases|
  {
    c.(phases := c.phases[t := p])
  }

  function WithSlot(c: Cache, a: Addr, r: Option<Record>): Cache
    requires a.lane < |c.lanes| && a.slot <= |c.lanes[a.lane].slots|
  {
    var lane := c.lanes[a.lane];
    var slots := if a.slot < |lane.slots| then lane.slots[a.slot := r] else lane.slots + [r];
    c.(lanes := c.lanes[a.lane := lane.(slots := slots)])
  }

  function WithSidecar(c: Cache, a: Addr, id: nat): Cache
    requires a.lane < |c.lanes| && a.slot < |c.lanes[a.lane].sidecar|
  {
    var lane := c.lanes[a.lane];
    c.(lanes := c.lanes[a.lane := lane.(sidecar := lane.sidecar[a.slot := id])])
  }

  /** Takes the next id of the thread's reservation, or reserves another batch. */
  function Take(c: Cache, t: nat, parent: Option<nat>): Cache
    requires t < |c.cursors| && t < |c.handed| && t < |c.phases|
  {
    var refill := c.cursors[t] % ID_BATCH == 0;
    var id := if refill then c.highWater else c.cursors[t];
    c.(highWater := if refill then c.highWater + ID_BATCH else c.highWater,
       owner := if refill then c.owner + [t] else c.owner,
       cursors := c.cursors[t := id + 1],
       handed := c.handed[t := c.handed[t] + [id]],
       phases := c.phases[t := Numbered(Record(id, parent, []))])
  }

  ghost function Next(c: Cache, t: nat, step: Step): Cache
    requires Inv(c) && Enabled(c, t, step)
  {
    FlightFacts(c, t);
    match step
    case Resolve(how) =>
      (match ParentFor(c, t, how)
       case None => c
       case Some(p) => WithPhase(c, t, Resolved(p)))
    case Refuse => WithPhase(c, t, Idle)
    case Number => Take(c, t, c.phases[t].parent)
    case Insert(slot) =>
      var rec := c.phases[t].rec;
      if LiveCount(c.lanes[LaneOf(c, t)].slots) >= c.cap then WithPhase(c, t, Idle)
      else WithPhase(WithSlot(c, Addr(LaneOf(c, t), slot), Some(rec)), t, Slotted(rec, slot)).(log := c.log + [rec])
    case Store =>
      var rec, slot := c.phases[t].rec, c.phases[t].slot;
      WithPhase(WithSidecar(c, Addr(LaneOf(c, t), slot), rec.id), t, Ready(rec, slot))
    case Publish =>
      WithPhase(c, t, Idle).(open := c.open + {Encode(c.bits, Addr(LaneOf(c, t), c.phases[t].slot))})
    case Enter(id) =>
      var actual := match Decode(c.bits, id) case None => 0 case Some(a) => Sidecar(c.lanes, a);
      c.(stacks := c.stacks[t := c.stacks[t] + [Stacked(id, actual)]],
         entered := c.entered[t := c.entered[t] + [Stacked(id, NamedId(c, id))]])
    case Exit(id) =>
      c.(stacks := c.stacks[t := Popped(c.stacks[t])], entered := c.entered[t := Forget(c.entered[t], id)])
    case Emit(how, body) =>
      (match EventParent(c, t, how)
       case None => c
       case Some(p) => WithOp(c, t, EventJoin.Emitted(Message(p, body))))
    case Close(id) =>
      match Decode(c.bits, id)
      case None => c
      case Some(a) =>
        if !Live(c.lanes, a) then c
        else
          WithOp(WithSlot(c, a, None).(closed := c.closed + [At(c.lanes, a)], open := c.open - {id}),
                 t, EventJoin.Closed(At(c.lanes, a)))
  }

  // ── Ids ──

  /** Block `b` of ids, `b * 1024` onwards, belongs to thread `owner[b - 1]` alone; a thread's ids
      increase and lie in its own blocks, and so does what is left of its reservation. */
  ghost predicate IdsInv(highWater: nat, owner: seq<nat>, handed: seq<seq<nat>>, cursors: seq<nat>) {
    && |handed| == |cursors|
    && highWater == ID_BATCH * (|owner| + 1)
    && (forall t :: 0 <= t < |cursors| ==>
          cursors[t] <= highWater && (cursors[t] % ID_BATCH != 0 ==> OwnedBy(cursors[t], t, owner)))
    && (forall t :: 0 <= t < |handed| ==> IdsOf(handed[t], t, owner, cursors[t]))
  }

  ghost predicate OwnedBy(id: nat, t: nat, owner: seq<nat>) {
    1 <= id / ID_BATCH <= |owner| && owner[id / ID_BATCH - 1] == t
  }

  ghost predicate IdsOf(ids: seq<nat>, t: nat, owner: seq<nat>, cursor: nat) {
    && (forall i :: 0 <= i < |ids| ==> OwnedBy(ids[i], t, owner) && ids[i] < cursor)
    && (forall i, j :: 0 <= i < j < |ids| ==> ids[i] < ids[j])
  }

  lemma TakeKeepsIds(c: Cache, t: nat, parent: Option<nat>)
    requires IdsInv(c.highWater, c.owner, c.handed, c.cursors) && t < |c.cursors| && t < |c.phases|
    ensures var d := Take(c, t, parent);
            IdsInv(d.highWater, d.owner, d.handed, d.cursors)
    ensures var id := Take(c, t, parent).cursors[t] - 1;
            forall u, i :: 0 <= u < |c.handed| && 0 <= i < |c.handed[u]| ==> c.handed[u][i] != id
  {
    var d := Take(c, t, parent);
    var id := d.cursors[t] - 1;
    assert OwnedBy(id, t, d.owner) && id >= c.cursors[t] && d.cursors[t] <= d.highWater;
    hide OwnedBy;
    forall u | 0 <= u < |d.handed| ensures IdsOf(d.handed[u], u, d.owner, d.cursors[u]) {
      assert IdsOf(c.handed[u], u, c.owner, c.cursors[u]);
      OwnedGrows(c.handed[u], u, c.owner, d.owner);
    }
    forall u | 0 <= u < |d.cursors|
      ensures d.cursors[u] <= d.highWater && (d.cursors[u] % ID_BATCH != 0 ==> OwnedBy(d.cursors[u], u, d.owner))
    {
      if u == t {
        StaysOwned(id, t, d.owner);
      } else if c.cursors[u] % ID_BATCH != 0 {
        OwnedGrows([c.cursors[u]], u, c.owner, d.owner);
      }
    }
    forall u, i | 0 <= u < |c.handed| && 0 <= i < |c.handed[u]| ensures c.handed[u][i] != id {
      assert IdsOf(c.handed[u], u, c.owner, c.cursors[u]);
      TakenIsNew(c, t, parent, c.handed[u][i], u);
    }
  }

  lemma TakenIsNew(c: Cache, t: nat, parent: Option<nat>, other: nat, u: nat)
    requires IdsInv(c.highWater, c.owner, c.handed, c.cursors) && t < |c.cursors| && t < |c.phases| && u < |c.cursors|
    requires OwnedBy(other, u, c.owner) && other < c.cursors[u]
    ensures other != Take(c, t, parent).cursors[t] - 1
  {
    hide IdsOf;
  }

  lemma StaysOwned(id: nat, t: nat, owner: seq<nat>)
    requires OwnedBy(id, t, owner)
    ensures (id + 1) % ID_BATCH != 0 ==> OwnedBy(id + 1, t, owner)
  {
  }

  lemma OwnedGrows(ids: seq<nat>, t: nat, owner: seq<nat>, more: seq<nat>)
    requires owner <= more && forall i :: 0 <= i < |ids| ==> OwnedBy(ids[i], t, owner)
    ensures forall i :: 0 <= i < |ids| ==> OwnedBy(ids[i], t, more)
  {
  }

  // ── Slots ──

  /** The slot a thread has filled but not yet handed to its caller. */
  function Flight(c: Cache, t: nat): Option<Addr>
    requires t < |c.phases| && t < |c.keys| && |c.lanes| > 0
  {
    match c.phases[t]
    case Slotted(_, slot) => Some(Addr(LaneOf(c, t), slot))
    case Ready(_, slot) => Some(Addr(LaneOf(c, t), slot))
    case _ => None
  }

  ghost predicate FlightOk(c: Cache, t: nat)
    requires Shaped(c) && t < |c.keys|
  {
    Flight(c, t).Some? ==>
      var a := Flight(c, t).value;
      && Live(c.lanes, a) && At(c.lanes, a) == c.phases[t].rec
      && Encode(c.bits, a) !in c.open
      && (c.phases[t].Ready? ==> Sidecar(c.lanes, a) == At(c.lanes, a).id)
  }

  /** A published id leads back to an open span whose sidecar names it. */
  ghost predicate OpenOk(c: Cache, id: nat)
    requires Shaped(c)
  {
    var d := Decode(c.bits, id);
    && id > DISABLED && d.Some? && Live(c.lanes, d.value) && Encode(c.bits, d.value) == id
    && Sidecar(c.lanes, d.value) == At(c.lanes, d.value).id
  }

  ghost predicate SlotsInv(c: Cache)
    requires Shaped(c)
  {
    && (forall t :: 0 <= t < |c.keys| ==> FlightOk(c, t))
    && (forall t, u :: 0 <= t < u < |c.keys| && Flight(c, t).Some? ==> Flight(c, t) != Flight(c, u))
    && (forall id :: id in c.open ==> OpenOk(c, id))
  }

  // ── Lineage ──

  ghost predicate Logged(log: seq<Record>, id: nat) {
    exists i :: 0 <= i < |log| && log[i].id == id
  }

  ghost predicate HandedOut(handed: seq<seq<nat>>, id: nat) {
    exists t, i :: 0 <= t < |handed| && 0 <= i < |handed[t]| && handed[t][i] == id
  }

  ghost predicate ParentOk(log: seq<Record>, p: Option<nat>) {
    p.Some? ==> Logged(log, p.value)
  }

  /** `mine` are the ids handed to the thread. */
  ghost predicate PhaseOk(log: seq<Record>, mine: seq<nat>, phase: Phase) {
    match phase
    case Resolved(p) => ParentOk(log, p)
    case Numbered(rec) =>
      ParentOk(log, rec.parent) && !Logged(log, rec.id) && mine != [] && rec.id == mine[|mine| - 1]
    case _ => true
  }

  ghost predicate StackOk(log: seq<Record>, stack: seq<Stacked>) {
    forall i :: 0 <= i < |stack| ==> stack[i].tracingId == DISABLED || Logged(log, stack[i].actualId)
  }

  ghost predicate LogOk(log: seq<Record>) {
    && (forall i, j :: 0 <= i < j < |log| ==> log[i].id != log[j].id)
    && (forall i :: 0 <= i < |log| ==> ParentOk(log[..i], log[i].parent))
  }

  ghost predicate LineageInv(log: seq<Record>, handed: seq<seq<nat>>, phases: seq<Phase>, stacks: seq<seq<Stacked>>) {
    && |handed| == |phases| == |stacks|
    && LogOk(log)
    && (forall i :: 0 <= i < |log| ==> HandedOut(handed, log[i].id))
    && (forall t :: 0 <= t < |phases| ==> PhaseOk(log, handed[t], phases[t]))
    && (forall t :: 0 <= t < |phases| ==> StackOk(log, stacks[t]))
  }

  /** Every recorded span is in one slot or closed once, never both. */
  ghost predicate PlaceInv(lanes: seq<Lane>, log: seq<Record>, closed: seq<Record>) {
    && (forall a :: Live(lanes, a) ==> At(lanes, a) in log && At(lanes, a) !in closed)
    && (forall a, b :: Live(lanes, a) && Live(lanes, b) && a != b ==> At(lanes, a) != At(lanes, b))
    && (forall r :: r in closed ==> r in log)
    && (forall r :: r in log ==> r in closed || Somewhere(lanes, r))
    && (forall i, j :: 0 <= i < j < |closed| ==> closed[i] != closed[j])
  }

  ghost predicate Somewhere(lanes: seq<Lane>, r: Record) {
    exists a :: Live(lanes, a) && At(lanes, a) == r
  }

  /** What a thread sent on: events of recorded spans, and spans closed for good, each once. */
  ghost predicate OpsOk(log: seq<Record>, closed: seq<Record>, ops: seq<EventJoin.Arrival>) {
    && (forall i :: 0 <= i < |ops| && ops[i].Emitted? ==> Logged(log, ops[i].m.parent))
    && (forall r :: r in ThreadState.Closings(ops) ==> r in closed)
    && (forall i, j :: 0 <= i < j < |ThreadState.Closings(ops)| ==>
          ThreadState.Closings(ops)[i] != ThreadState.Closings(ops)[j])
  }

  ghost predicate OpsInv(log: seq<Record>, closed: seq<Record>, ops: seq<seq<EventJoin.Arrival>>) {
    && (forall t :: 0 <= t < |ops| ==> OpsOk(log, closed, ops[t]))
    && (|ops| == 1 ==> ThreadState.Closings(ops[0]) == closed)
  }

  ghost predicate Inv(c: Cache) {
    && Shaped(c)
    && IdsInv(c.highWater, c.owner, c.handed, c.cursors)
    && SlotsInv(c)
    && LineageInv(c.log, c.handed, c.phases, c.stacks)
    && PlaceInv(c.lanes, c.log, c.closed)
    && OpsInv(c.log, c.closed, c.ops)
  }

  lemma FlightFacts(c: Cache, t: nat)
    requires Inv(c) && t < |c.keys|
    ensures FlightOk(c, t) && |c.lanes| > 0
  {
  }

  // ── Each step keeps the shape ──

  lemma {:induction false} FullMeansLive(slots: seq<Option<Record>>)
    requires forall i :: 0 <= i < |slots| ==> slots[i].Some?
    ensures LiveCount(slots) == |slots|
  {
    if slots == [] {
    } else {
      FullMeansLive(slots[..|slots| - 1]);
    }
  }

  lemma StepKeepsShape(c: Cache, t: nat, step: Step)
    requires Inv(c) && Enabled(c, t, step)
    ensures Shaped(Next(c, t, step)) && Next(c, t, step).bits == c.bits && Next(c, t, step).keys == c.keys
  {
    hide IdsInv, LineageInv, PlaceInv, OpsInv, LiveCount, OpenOk, Decode, Encode, ParentFor, NamedId, Forget, Popped;
    FlightFacts(c, t);
    if step.Insert? {
      var slots := c.lanes[LaneOf(c, t)].slots;
      if step.slot == |slots| && LiveCount(slots) < c.cap {
        FullMeansLive(slots);
      }
    }
  }

  // ── Each step keeps the slots ──

  /** The lanes and the open ids stay, and no thread's flight changes. */
  lemma SlotsQuiet(c: Cache, d: Cache)
    requires Shaped(c) && Shaped(d) && SlotsInv(c)
    requires d.bits == c.bits && d.lanes == c.lanes && d.open == c.open && d.keys == c.keys
    requires forall u :: 0 <= u < |c.keys| ==> d.phases[u] == c.phases[u] || (Flight(c, u).None? && Flight(d, u).None?)
    ensures SlotsInv(d)
  {
    hide Encode, Decode;
    forall u | 0 <= u < |c.keys| ensures FlightOk(d, u) && Flight(d, u) == Flight(c, u) {
      assert FlightOk(c, u);
    }
    forall id | id in d.open ensures OpenOk(d, id) {
      assert OpenOk(c, id);
    }
  }

  lemma Distinguish(c: Cache, a: Addr, b: Addr)
    requires Shaped(c) && Live(c.lanes, a) && Live(c.lanes, b)
    ensures Encode(c.bits, a) == Encode(c.bits, b) ==> a == b
    ensures Decode(c.bits, Encode(c.bits, a)) == Some(a) && Encode(c.bits, a) > DISABLED
  {
    hide Encode, Decode;
    RoundTrip(c.bits, a);
    RoundTrip(c.bits, b);
  }

  /** Changing slot `a` only, where neither an open id nor another thread's flight points. */
  lemma SlotsElsewhere(c: Cache, d: Cache, a: Addr, t: nat)
    requires Shaped(c) && Shaped(d) && SlotsInv(c) && d.bits == c.bits && d.keys == c.keys
    requires forall b :: b != a ==> Live(d.lanes, b) == Live(c.lanes, b) && Sidecar(d.lanes, b) == Sidecar(c.lanes, b)
    requires forall b :: b != a && Live(c.lanes, b) ==> At(d.lanes, b) == At(c.lanes, b)
    requires d.open <= c.open && forall id :: id in d.open ==> Decode(c.bits, id) != Some(a)
    requires forall u :: 0 <= u < |c.keys| && u != t ==> d.phases[u] == c.phases[u] && Flight(c, u) != Some(a)
    requires t < |c.keys| ==> FlightOk(d, t) && Flight(d, t) in {None, Some(a)}
    ensures SlotsInv(d)
  {
    hide Encode, Decode, Sidecar, Live, At;
    forall u | 0 <= u < |c.keys| ensures FlightOk(d, u) {
      if u != t {
        assert FlightOk(c, u);
      }
    }
    forall id | id in d.open ensures OpenOk(d, id) {
      assert OpenOk(c, id);
    }
  }

  lemma SlotChanges(c: Cache, a: Addr, r: Option<Record>)
    requires a.lane < |c.lanes| && a.slot <= |c.lanes[a.lane].slots|
    requires a.slot == |c.lanes[a.lane].slots| ==> r.Some?
    ensures var lanes := WithSlot(c, a, r).lanes;
            && (Live(lanes, a) <==> r.Some?) && (r.Some? ==> At(lanes, a) == r.value)
            && (forall b :: b != a ==> Live(lanes, b) == Live(c.lanes, b))
            && (forall b :: b != a && Live(c.lanes, b) ==> At(lanes, b) == At(c.lanes, b))
            && (forall b :: Sidecar(lanes, b) == Sidecar(c.lanes, b))
  {
  }

  lemma InsertSlots(c: Cache, t: nat, slot: nat)
    requires Inv(c) && Enabled(c, t, Insert(slot))
    requires LiveCount(c.lanes[LaneOf(c, t)].slots) < c.cap && Shaped(Next(c, t, Insert(slot)))
    ensures SlotsInv(Next(c, t, Insert(slot)))
  {
    hide IdsInv, LineageInv, PlaceInv, LiveCount, Encode, Decode, Live, At, Sidecar;
    var d, a := Next(c, t, Insert(slot)), Addr(LaneOf(c, t), slot);
    assert !Live(c.lanes, a) by { NotLive(c.lanes, a); }
    SlotChanges(c, a, Some(c.phases[t].rec));
    forall u | 0 <= u < |c.keys| && u != t ensures Flight(c, u) != Some(a) {
      assert FlightOk(c, u);
    }
    forall id | id in c.open ensures Decode(c.bits, id) != Some(a) {
      assert OpenOk(c, id);
    }
    LiveFits(d, a);
    SlotsElsewhere(c, d, a, t);
  }

  lemma NotLive(lanes: seq<Lane>, a: Addr)
    requires a.lane < |lanes| && Vacant(lanes[a.lane].slots, a.slot)
    ensures !Live(lanes, a)
  {
  }

  lemma LiveFits(d: Cache, a: Addr)
    requires Shaped(d) && Live(d.lanes, a)
    ensures Decode(d.bits, Encode(d.bits, a)) == Some(a)
  {
    hide Encode, Decode;
    RoundTrip(d.bits, a);
  }

  lemma StoreSlots(c: Cache, t: nat)
    requires Inv(c) && Enabled(c, t, Store) && Shaped(Next(c, t, Store))
    ensures SlotsInv(Next(c, t, Store))
  {
    hide IdsInv, LineageInv, PlaceInv, LiveCount, Encode, Decode;
    FlightFacts(c, t);
    var d, a := Next(c, t, Store), Flight(c, t).value;
    forall id | id in c.open ensures Decode(c.bits, id) != Some(a) {
      assert OpenOk(c, id);
    }
    SlotsElsewhere(c, d, a, t);
  }

  lemma PublishSlots(c: Cache, t: nat)
    requires Inv(c) && Enabled(c, t, Publish) && Shaped(Next(c, t, Publish))
    ensures SlotsInv(Next(c, t, Publish))
  {
    hide IdsInv, LineageInv, PlaceInv, LiveCount, Encode, Decode;
    FlightFacts(c, t);
    var d, a := Next(c, t, Publish), Flight(c, t).value;
    Distinguish(c, a, a);
    forall u | 0 <= u < |c.keys| ensures FlightOk(d, u) && (u != t ==> Flight(d, u) == Flight(c, u)) {
      assert FlightOk(c, u);
      if u != t && Flight(c, u).Some? {
        Distinguish(c, a, Flight(c, u).value);
      }
    }
    forall id | id in d.open ensures OpenOk(d, id) {
      assert id in c.open ==> OpenOk(c, id);
    }
  }

  lemma CloseSlots(c: Cache, t: nat, id: nat)
    requires Inv(c) && Enabled(c, t, Close(id)) && Shaped(Next(c, t, Close(id))) && id in c.open
    ensures SlotsInv(Next(c, t, Close(id)))
  {
    hide IdsInv, LineageInv, PlaceInv, LiveCount, Encode, Decode;
    var d := Next(c, t, Close(id));
    assert OpenOk(c, id);
    var a := Decode(c.bits, id).value;
    forall other | other in d.open ensures Decode(c.bits, other) != Some(a) {
      assert OpenOk(c, other);
    }
    forall u | 0 <= u < |c.keys| ensures Flight(c, u) != Some(a) && d.phases[u] == c.phases[u] {
      assert FlightOk(c, u);
    }
    SlotsElsewhere(c, d, a, |c.keys|);
  }

  lemma StepKeepsSlots(c: Cache, t: nat, step: Step)
    requires Inv(c) && Enabled(c, t, step)
    ensures Shaped(Next(c, t, step)) && SlotsInv(Next(c, t, step))
  {
    hide IdsInv, LineageInv, PlaceInv, LiveCount, Encode, SlotsInv;
    StepKeepsShape(c, t, step);
    FlightFacts(c, t);
    match step {
      case Insert(slot) =>
        if LiveCount(c.lanes[LaneOf(c, t)].slots) < c.cap {
          InsertSlots(c, t, slot);
        } else {
          SlotsQuiet(c, Next(c, t, step));
        }
      case Store => StoreSlots(c, t);
      case Publish => PublishSlots(c, t);
      case Close(id) =>
        if id in c.open {
          CloseSlots(c, t, id);
        } else {
          SlotsQuiet(c, Next(c, t, step));
        }
      case _ => SlotsQuiet(c, Next(c, t, step));
    }
  }

  // ── Each step keeps the lineage ──

  lemma NeverTwice(highWater: nat, owner: seq<nat>, handed: seq<seq<nat>>, cursors: seq<nat>,
                   t: nat, i: nat, u: nat, j: nat)
    requires IdsInv(highWater, owner, handed, cursors)
    requires t < |handed| && i < |handed[t]| && u < |handed| && j < |handed[u]| && (t != u || i != j)
    ensures handed[t][i] != handed[u][j] && handed[t][i] >= ID_BATCH
  {
    assert IdsOf(handed[t], t, owner, cursors[t]) && IdsOf(handed[u], u, owner, cursors[u]);
    assert OwnedBy(handed[t][i], t, owner) && OwnedBy(handed[u][j], u, owner);
  }

  lemma LineageQuiet(log: seq<Record>, handed: seq<seq<nat>>, phases: seq<Phase>, stacks: seq<seq<Stacked>>,
                     t: nat, phase: Phase, stack: seq<Stacked>)
    requires LineageInv(log, handed, phases, stacks) && t < |phases|
    requires PhaseOk(log, handed[t], phase) && StackOk(log, stack)
    ensures LineageInv(log, handed, phases[t := phase], stacks[t := stack])
  {
    hide LogOk, PhaseOk, StackOk, HandedOut;
  }

  lemma LineageFacts(log: seq<Record>, handed: seq<seq<nat>>, phases: seq<Phase>, stacks: seq<seq<Stacked>>, t: nat)
    requires LineageInv(log, handed, phases, stacks) && t < |phases|
    ensures PhaseOk(log, handed[t], phases[t]) && StackOk(log, stacks[t])
    ensures phases[t := phases[t]] == phases && stacks[t := stacks[t]] == stacks
  {
    hide LogOk, PhaseOk, StackOk, HandedOut;
  }

  lemma NumberLineage(log: seq<Record>, handed: seq<seq<nat>>, phases: seq<Phase>, stacks: seq<seq<Stacked>>,
                      t: nat, id: nat, parent: Option<nat>)
    requires LineageInv(log, handed, phases, stacks) && t < |phases|
    requires ParentOk(log, parent) && !HandedOut(handed, id)
    ensures LineageInv(log, handed[t := handed[t] + [id]], phases[t := Numbered(Record(id, parent, []))], stacks)
  {
    hide LogOk, ParentOk, StackOk;
    var handed' := handed[t := handed[t] + [id]];
    forall i | 0 <= i < |log| ensures HandedOut(handed', log[i].id) && log[i].id != id {
      var u, j :| 0 <= u < |handed| && 0 <= j < |handed[u]| && handed[u][j] == log[i].id;
      assert handed'[u][j] == log[i].id;
    }
  }

  lemma LogGrows(log: seq<Record>, rec: Record)
    requires LogOk(log) && ParentOk(log, rec.parent) && !Logged(log, rec.id)
    ensures LogOk(log + [rec])
    ensures forall id :: Logged(log + [rec], id) <==> Logged(log, id) || id == rec.id
  {
    var more := log + [rec];
    forall i | 0 <= i < |more| ensures ParentOk(more[..i], more[i].parent) {
      assert more[..i] == if i < |log| then log[..i] else log;
    }
    forall id ensures Logged(more, id) <==> Logged(log, id) || id == rec.id {
      if Logged(log, id) {
        var i :| 0 <= i < |log| && log[i].id == id;
        assert more[i].id == id;
      }
      assert more[|log|].id == rec.id;
    }
  }

  lemma InsertLineage(log: seq<Record>, handed: seq<seq<nat>>, phases: seq<Phase>, stacks: seq<seq<Stacked>>,
                      t: nat, slot: nat)
    requires LineageInv(log, handed, phases, stacks) && t < |phases| && phases[t].Numbered?
    requires forall u :: 0 <= u < |phases| && u != t && phases[u].Numbered? ==> phases[u].rec.id != phases[t].rec.id
    ensures LineageInv(log + [phases[t].rec], handed, phases[t := Slotted(phases[t].rec, slot)], stacks)
  {
    hide LogOk, Logged;
    var rec := phases[t].rec;
    assert PhaseOk(log, handed[t], phases[t]);
    LogGrows(log, rec);
    assert handed[t][|handed[t]| - 1] == rec.id;
    forall u | 0 <= u < |phases| && u != t ensures PhaseOk(log + [rec], handed[u], phases[u]) {
      assert PhaseOk(log, handed[u], phases[u]);
    }
    forall u | 0 <= u < |phases| ensures StackOk(log + [rec], stacks[u]) {
      assert StackOk(log, stacks[u]);
    }
  }

  /** An open id's sidecar names a recorded span. */
  lemma OpenIsLogged(c: Cache, id: nat)
    requires Inv(c) && id in c.open
    ensures Decode(c.bits, id).Some? && Logged(c.log, Sidecar(c.lanes, Decode(c.bits, id).value))
  {
    hide IdsInv, LineageInv, Decode, Encode;
    assert OpenOk(c, id);
    var rec := At(c.lanes, Decode(c.bits, id).value);
    assert rec in c.log;
    var i :| 0 <= i < |c.log| && c.log[i] == rec;
    assert c.log[i].id == rec.id;
  }

  lemma NumberedDiffer(c: Cache, t: nat, u: nat)
    requires Inv(c) && t < |c.phases| && u < |c.phases| && t != u && c.phases[t].Numbered? && c.phases[u].Numbered?
    ensures c.phases[t].rec.id != c.phases[u].rec.id
  {
    hide SlotsInv, PlaceInv, IdsInv, LogOk, StackOk, HandedOut, ParentOk, Logged;
    assert PhaseOk(c.log, c.handed[t], c.phases[t]) && PhaseOk(c.log, c.handed[u], c.phases[u]);
    NeverTwice(c.highWater, c.owner, c.handed, c.cursors, t, |c.handed[t]| - 1, u, |c.handed[u]| - 1);
  }

  lemma ParentForIsOk(c: Cache, t: nat, how: Parenting)
    requires Inv(c) && Enabled(c, t, Resolve(how))
    ensures ParentFor(c, t, how).Some? ==> ParentOk(c.log, ParentFor(c, t, how).value)
  {
    hide IdsInv, SlotsInv, PlaceInv, LogOk, HandedOut, Decode, Logged;
    LineageFacts(c.log, c.handed, c.phases, c.stacks, t);
    if how.Explicit? {
      if how.tracingId in c.open {
        OpenIsLogged(c, how.tracingId);
      } else {
        NotDecoded(c.bits);
      }
    }
  }

  lemma NotDecoded(bits: nat)
    requires bits <= 8
    ensures Decode(bits, DISABLED) == None
  {
  }

  lemma StepKeepsLineage(c: Cache, t: nat, step: Step)
    requires Inv(c) && Enabled(c, t, step)
    ensures var d := Next(c, t, step); LineageInv(d.log, d.handed, d.phases, d.stacks)
  {
    hide IdsInv, SlotsInv, PlaceInv, LineageInv, LiveCount, Encode, Decode, Logged, ParentFor;
    FlightFacts(c, t);
    LineageFacts(c.log, c.handed, c.phases, c.stacks, t);
    var phase, stack := c.phases[t], c.stacks[t];
    match step {
      case Resolve(how) =>
        ParentForIsOk(c, t, how);
        if ParentFor(c, t, how).Some? {
          LineageQuiet(c.log, c.handed, c.phases, c.stacks, t, Resolved(ParentFor(c, t, how).value), stack);
        }
      case Refuse => LineageQuiet(c.log, c.handed, c.phases, c.stacks, t, Idle, stack);
      case Number =>
        TakeKeepsIds(c, t, phase.parent);
        NumberLineage(c.log, c.handed, c.phases, c.stacks, t, Take(c, t, phase.parent).cursors[t] - 1, phase.parent);
      case Insert(slot) =>
        if LiveCount(c.lanes[LaneOf(c, t)].slots) < c.cap {
          forall u | 0 <= u < |c.phases| && u != t && c.phases[u].Numbered? ensures c.phases[u].rec.id != phase.rec.id {
            NumberedDiffer(c, t, u);
          }
          InsertLineage(c.log, c.handed, c.phases, c.stacks, t, slot);
        } else {
          LineageQuiet(c.log, c.handed, c.phases, c.stacks, t, Idle, stack);
        }
      case Store => LineageQuiet(c.log, c.handed, c.phases, c.stacks, t, Ready(phase.rec, phase.slot), stack);
      case Publish => LineageQuiet(c.log, c.handed, c.phases, c.stacks, t, Idle, stack);
      case Enter(id) =>
        if id in c.open {
          OpenIsLogged(c, id);
        }
        LineageQuiet(c.log, c.handed, c.phases, c.stacks, t, phase, Next(c, t, step).stacks[t]);
      case Exit(_) =>
        if stack != [] {
          LineageQuiet(c.log, c.handed, c.phases, c.stacks, t, phase, stack[..|stack| - 1]);
        }
      case Close(id) =>
      case Emit(_, _) =>
    }
  }

  // ── Each step keeps the places ──

  lemma StepKeepsPlaces(c: Cache, t: nat, step: Step)
    requires Inv(c) && Enabled(c, t, step)
    ensures var d := Next(c, t, step); PlaceInv(d.lanes, d.log, d.closed)
  {
    hide IdsInv, SlotsInv, LineageInv, LiveCount, Encode, Decode, Live, At, PlaceInv, Sidecar;
    FlightFacts(c, t);
    match step {
      case Insert(slot) =>
        if LiveCount(c.lanes[LaneOf(c, t)].slots) < c.cap {
          var a, rec := Addr(LaneOf(c, t), slot), c.phases[t].rec;
          NewRecord(c, t);
          NotLive(c.lanes, a);
          SlotChanges(c, a, Some(rec));
          InsertPlaces(c.lanes, WithSlot(c, a, Some(rec)).lanes, c.log, c.closed, a, rec);
        }
      case Store =>
        var a := Addr(LaneOf(c, t), c.phases[t].slot);
        SamePlaces(c.lanes, Next(c, t, step).lanes, c.log, c.closed, a);
      case Close(id) =>
        var d := Decode(c.bits, id);
        if d.Some? && Live(c.lanes, d.value) {
          LiveIsInSlab(c.lanes, d.value);
          SlotChanges(c, d.value, None);
          ClosePlaces(c.lanes, WithSlot(c, d.value, None).lanes, c.log, c.closed, d.value);
        }
      case _ =>
    }
  }

  lemma LiveIsInSlab(lanes: seq<Lane>, a: Addr)
    requires Live(lanes, a)
    ensures a.lane < |lanes| && a.slot < |lanes[a.lane].slots|
  {
  }

  lemma NewRecord(c: Cache, t: nat)
    requires Inv(c) && t < |c.phases| && c.phases[t].Numbered?
    ensures c.phases[t].rec !in c.log
  {
    hide IdsInv, SlotsInv, PlaceInv, LogOk, StackOk, HandedOut;
    assert PhaseOk(c.log, c.handed[t], c.phases[t]);
  }

  lemma InsertPlaces(lanes: seq<Lane>, more: seq<Lane>, log: seq<Record>, closed: seq<Record>, a: Addr, rec: Record)
    requires PlaceInv(lanes, log, closed) && rec !in log && !Live(lanes, a) && Live(more, a) && At(more, a) == rec
    requires forall b :: b != a ==> Live(more, b) == Live(lanes, b)
    requires forall b :: b != a && Live(lanes, b) ==> At(more, b) == At(lanes, b)
    ensures PlaceInv(more, log + [rec], closed)
  {
    hide Live, At;
    forall r | r in log + [rec] ensures r in closed || Somewhere(more, r) {
      if r == rec {
        assert Somewhere(more, r);
      } else if r !in closed {
        var b :| Live(lanes, b) && At(lanes, b) == r;
        assert Live(more, b) && At(more, b) == r;
      }
    }
  }

  lemma SamePlaces(lanes: seq<Lane>, same: seq<Lane>, log: seq<Record>, closed: seq<Record>, a: Addr)
    requires PlaceInv(lanes, log, closed) && |same| == |lanes|
    requires forall l :: 0 <= l < |lanes| ==> same[l].slots == lanes[l].slots
    ensures PlaceInv(same, log, closed)
  {
    assert forall b :: Live(same, b) == Live(lanes, b);
    assert forall b :: Live(same, b) ==> At(same, b) == At(lanes, b);
    hide Live, At;
    forall r | r in log ensures r in closed || Somewhere(same, r) {
      if r !in closed {
        var b :| Live(lanes, b) && At(lanes, b) == r;
        assert Live(same, b) && At(same, b) == r;
      }
    }
  }

  lemma ClosePlaces(lanes: seq<Lane>, less: seq<Lane>, log: seq<Record>, closed: seq<Record>, a: Addr)
    requires PlaceInv(lanes, log, closed) && Live(lanes, a) && !Live(less, a)
    requires forall b :: b != a ==> Live(less, b) == Live(lanes, b)
    requires forall b :: b != a && Live(lanes, b) ==> At(less, b) == At(lanes, b)
    ensures PlaceInv(less, log, closed + [At(lanes, a)])
  {
    hide Live, At;
    var more := closed + [At(lanes, a)];
    forall i, j | 0 <= i < j < |more| ensures more[i] != more[j] {
      if j == |closed| {
        assert closed[i] in closed;
      }
    }
    forall r | r in log ensures r in more || Somewhere(less, r) {
      if r !in more {
        var b :| Live(lanes, b) && At(lanes, b) == r;
        assert Live(less, b) && At(less, b) == r;
      }
    }
  }

  // ── Each step keeps what was sent on ──

  lemma OpsQuiet(log: seq<Record>, more: seq<Record>, closed: seq<Record>, ops: seq<seq<EventJoin.Arrival>>)
    requires OpsInv(log, closed, ops) && log <= more
    ensures OpsInv(more, closed, ops)
  {
    hide ThreadState.Closings;
    forall id | Logged(log, id) ensures Logged(more, id) {
      var i :| 0 <= i < |log| && log[i].id == id;
      assert more[i].id == id;
    }
    forall t | 0 <= t < |ops| ensures OpsOk(more, closed, ops[t]) {
      assert OpsOk(log, closed, ops[t]);
    }
  }

  lemma EmitOps(log: seq<Record>, closed: seq<Record>, ops: seq<seq<EventJoin.Arrival>>, t: nat, m: Message)
    requires OpsInv(log, closed, ops) && t < |ops| && Logged(log, m.parent)
    ensures OpsInv(log, closed, ops[t := ops[t] + [EventJoin.Emitted(m)]])
  {
    hide ThreadState.Closings;
    ThreadState.ClosingsSnoc(ops[t], EventJoin.Emitted(m));
    var ops' := ops[t := ops[t] + [EventJoin.Emitted(m)]];
    forall u | 0 <= u < |ops'| ensures OpsOk(log, closed, ops'[u]) {
      assert OpsOk(log, closed, ops[u]);
    }
  }

  lemma CloseOps(log: seq<Record>, closed: seq<Record>, ops: seq<seq<EventJoin.Arrival>>, t: nat, r: Record)
    requires OpsInv(log, closed, ops) && t < |ops| && r !in closed
    ensures OpsInv(log, closed + [r], ops[t := ops[t] + [EventJoin.Closed(r)]])
  {
    hide ThreadState.Closings, Logged;
    ThreadState.ClosingsSnoc(ops[t], EventJoin.Closed(r));
    var ops' := ops[t := ops[t] + [EventJoin.Closed(r)]];
    forall u | 0 <= u < |ops'| ensures OpsOk(log, closed + [r], ops'[u]) {
      assert OpsOk(log, closed, ops[u]);
    }
  }

  lemma StepKeepsOps(c: Cache, t: nat, step: Step)
    requires Inv(c) && Enabled(c, t, step)
    ensures var d := Next(c, t, step); OpsInv(d.log, d.closed, d.ops)
  {
    hide IdsInv, SlotsInv, LineageInv, LiveCount, Encode, Decode, Live, At, OpsInv, Sidecar, ParentFor, Logged;
    FlightFacts(c, t);
    match step {
      case Insert(slot) =>
        OpsQuiet(c.log, Next(c, t, step).log, c.closed, c.ops);
      case Emit(how, body) =>
        ParentForIsOk(c, t, ForEvent(how));
        if EventParent(c, t, how).Some? {
          EmitOps(c.log, c.closed, c.ops, t, Message(EventParent(c, t, how).value, body));
        }
      case Close(id) =>
        var d := Decode(c.bits, id);
        if d.Some? && Live(c.lanes, d.value) {
          LiveIsInSlab(c.lanes, d.value);
          CloseOps(c.log, c.closed, c.ops, t, At(c.lanes, d.value));
        }
      case _ =>
    }
  }

  // ── Runs ──

  /** Whatever any thread does next, every invariant stays. */
  lemma StepKeeps(c: Cache, t: nat, step: Step)
    requires Inv(c) && Enabled(c, t, step)
    ensures Inv(Next(c, t, step))
  {
    hide IdsInv, SlotsInv, LineageInv, PlaceInv, LiveCount, Encode, Decode, ParentFor;
    StepKeepsSlots(c, t, step);
    StepKeepsLineage(c, t, step);
    StepKeepsPlaces(c, t, step);
    StepKeepsOps(c, t, step);
    if step.Number? {
      TakeKeepsIds(c, t, c.phases[t].parent);
    }
  }

  datatype Move = Move(thread: nat, step: Step)

  /** The state a run ends in, provided every move was enabled. */
  ghost function Run(c: Cache, moves: seq<Move>): (d: Option<Cache>)
    requires Inv(c)
    ensures d.Some? ==> Inv(d.value)
  {
    if moves == [] then Some(c)
    else
      var front := Run(c, moves[..|moves| - 1]);
      var m := moves[|moves| - 1];
      if front.None? || !Enabled(front.value, m.thread, m.step) then None
      else
        StepKeeps(front.value, m.thread, m.step);
        Some(Next(front.value, m.thread, m.step))
  }

  lemma FreshInv(laneCount: nat, capacity: nat, keys: seq<nat>)
    requires Fresh(laneCount, capacity, keys).cap + SLAB_OFFSET <= Pow2(Shift(LaneBits(laneCount)))
    ensures Inv(Fresh(laneCount, capacity, keys))
  {
    hide Pow2, LaneBits, Encode, Decode;
    var c := Fresh(laneCount, capacity, keys);
    assert c.cursors == seq(|keys|, _ => 0);
    assert forall a :: !Live(c.lanes, a);
  }

  /** A run of a new cache: any number of threads, any interleaving, any lane count and capacity
      whose slots fit a tracing id. */
  ghost predicate Reaches(laneCount: nat, capacity: nat, keys: seq<nat>, moves: seq<Move>, c: Cache) {
    && Fresh(laneCount, capacity, keys).cap + SLAB_OFFSET <= Pow2(Shift(LaneBits(laneCount)))
    && Inv(Fresh(laneCount, capacity, keys))
    && Run(Fresh(laneCount, capacity, keys), moves) == Some(c)
  }

  lemma ReachesInv(laneCount: nat, capacity: nat, keys: seq<nat>, moves: seq<Move>, c: Cache)
    requires Reaches(laneCount, capacity, keys, moves, c)
    ensures Inv(c)
  {
    hide Inv, Fresh;
  }

  /** No id is handed out twice, none is 0, each thread's ids increase, the counter moves by whole
      batches, and what is left of a thread's reservation lies below it in a batch of its own. */
  lemma IdsAreUnique(laneCount: nat, capacity: nat, keys: seq<nat>, moves: seq<Move>, c: Cache)
    requires Reaches(laneCount, capacity, keys, moves, c)
    ensures c.highWater % 1024 == 0
    ensures forall t, i, u, j ::
      0 <= t < |c.handed| && 0 <= i < |c.handed[t]| && 0 <= u < |c.handed| && 0 <= j < |c.handed[u]| ==>
      (t != u || i != j) ==> c.handed[t][i] != c.handed[u][j]
    ensures forall t, i :: 0 <= t < |c.handed| && 0 <= i < |c.handed[t]| ==> 1024 <= c.handed[t][i] < c.highWater
    ensures forall t, i, j :: 0 <= t < |c.handed| && 0 <= i < j < |c.handed[t]| ==> c.handed[t][i] < c.handed[t][j]
    ensures forall t, u :: 0 <= t < u < |c.cursors| && c.cursors[t] % 1024 != 0 && c.cursors[u] % 1024 != 0 ==>
      c.cursors[t] / 1024 != c.cursors[u] / 1024
    ensures forall t :: 0 <= t < |c.cursors| && c.cursors[t] % 1024 != 0 ==>
      (c.cursors[t] / 1024 + 1) * 1024 <= c.highWater
  {
    ReachesInv(laneCount, capacity, keys, moves, c);
    IdsApart(c.highWater, c.owner, c.handed, c.cursors);
  }

  lemma IdsApart(highWater: nat, owner: seq<nat>, handed: seq<seq<nat>>, cursors: seq<nat>)
    requires IdsInv(highWater, owner, handed, cursors)
    ensures highWater % 1024 == 0
    ensures forall t, i, u, j ::
      0 <= t < |handed| && 0 <= i < |handed[t]| && 0 <= u < |handed| && 0 <= j < |handed[u]| ==>
      (t != u || i != j) ==> handed[t][i] != handed[u][j]
    ensures forall t, i :: 0 <= t < |handed| && 0 <= i < |handed[t]| ==> 1024 <= handed[t][i] < highWater
    ensures forall t, i, j :: 0 <= t < |handed| && 0 <= i < j < |handed[t]| ==> handed[t][i] < handed[t][j]
    ensures forall t, u :: 0 <= t < u < |cursors| && cursors[t] % 1024 != 0 && cursors[u] % 1024 != 0 ==>
      cursors[t] / 1024 != cursors[u] / 1024
    ensures forall t :: 0 <= t < |cursors| && cursors[t] % 1024 != 0 ==>
      (cursors[t] / 1024 + 1) * 1024 <= highWater
  {
    assert forall t :: 0 <= t < |handed| ==> IdsOf(handed[t], t, owner, cursors[t]);
    forall t, i, u, j | 0 <= t < |handed| && 0 <= i < |handed[t]| && 0 <= u < |handed| && 0 <= j < |handed[u]|
      && (t != u || i != j)
      ensures handed[t][i] != handed[u][j]
    {
      NeverTwice(highWater, owner, handed, cursors, t, i, u, j);
    }
    forall t, i | 0 <= t < |handed| && 0 <= i < |handed[t]| ensures 1024 <= handed[t][i] < highWater {
      assert OwnedBy(handed[t][i], t, owner);
    }
  }

  /** Open spans keep distinct tracing ids, none of them 0 or `DISABLED`; the slab index stays below
      the lane's capacity, and the sidecar at a decoded id is the id of the record held there. */
  lemma OpenIdsAreSound(laneCount: nat, capacity: nat, keys: seq<nat>, moves: seq<Move>, c: Cache)
    requires Reaches(laneCount, capacity, keys, moves, c)
    ensures Shaped(c)
    ensures forall id :: id in c.open ==> OpenOk(c, id) && Decode(c.bits, id).value.slot < c.cap
    ensures forall t :: 0 <= t < |c.keys| && c.phases[t].Ready? ==>
      Encode(c.bits, Addr(LaneOf(c, t), c.phases[t].slot)) !in c.open
  {
    hide IdsInv, LineageInv, PlaceInv, Encode, Decode, Reaches;
    ReachesInv(laneCount, capacity, keys, moves, c);
    forall id | id in c.open ensures OpenOk(c, id) && Decode(c.bits, id).value.slot < c.cap {
      assert OpenOk(c, id);
    }
    forall t | 0 <= t < |c.keys| && c.phases[t].Ready?
      ensures Encode(c.bits, Addr(LaneOf(c, t), c.phases[t].slot)) !in c.open
    {
      assert FlightOk(c, t);
    }
  }

  /** A chain of recorded spans from `r` up to one without a parent. */
  ghost predicate Ancestry(log: seq<Record>, chain: seq<Record>) {
    && chain != [] && chain[|chain| - 1].parent.None?
    && (forall i :: 0 <= i < |chain| ==> chain[i] in log)
    && (forall i, j :: 0 <= i < |chain| && j == i + 1 && j < |chain| ==> chain[i].parent == Some(chain[j].id))
  }

  lemma {:induction false} ChainEndsInRoot(log: seq<Record>, i: nat) returns (chain: seq<Record>)
    requires LogOk(log) && i < |log|
    ensures Ancestry(log, chain) && chain[0] == log[i]
    decreases i
  {
    chain := [log[i]];
    assert ParentOk(log[..i], log[i].parent);
    if log[i].parent.Some? {
      var j :| 0 <= j < i && log[..i][j].id == log[i].parent.value;
      var rest := ChainEndsInRoot(log, j);
      chain := [log[i]] + rest;
    }
  }

  /** Every recorded span's chain ends in a recorded root: no recorded span hangs under a disabled
      one, whatever order the spans are entered and exited in. */
  lemma RecordedSpansAreRooted(laneCount: nat, capacity: nat, keys: seq<nat>, moves: seq<Move>, c: Cache)
    requires Reaches(laneCount, capacity, keys, moves, c)
    ensures forall r :: r in c.log ==> exists chain :: Ancestry(c.log, chain) && chain[0] == r
  {
    ReachesInv(laneCount, capacity, keys, moves, c);
    hide Ancestry;
    forall r | r in c.log ensures exists chain :: Ancestry(c.log, chain) && chain[0] == r {
      var i :| 0 <= i < |c.log| && c.log[i] == r;
      var chain := ChainEndsInRoot(c.log, i);
    }
  }

  lemma RecordsDiffer(log: seq<Record>, r: Record, s: Record)
    requires LogOk(log) && r in log && s in log && r != s
    ensures r.id != s.id
  {
    hide ParentOk;
    var i :| 0 <= i < |log| && log[i] == r;
    var j :| 0 <= j < |log| && log[j] == s;
    assert i < j ==> log[i].id != log[j].id;
    assert j < i ==> log[j].id != log[i].id;
  }

  lemma EventsAreLogged(c: Cache, t: nat)
    requires Inv(c) && t < |c.ops|
    ensures forall i :: 0 <= i < |c.ops[t]| && c.ops[t][i].Emitted? ==> Logged(c.log, c.ops[t][i].m.parent)
  {
    hide IdsInv, SlotsInv, LineageInv, PlaceInv, Logged;
    assert OpsOk(c.log, c.closed, c.ops[t]);
  }

  /** Every recorded span sits in the slab or was closed, once; so the closed spans have distinct
      ids, which is all the console's aggregator asks of its input. */
  lemma ClosedOnce(laneCount: nat, capacity: nat, keys: seq<nat>, moves: seq<Move>, c: Cache,
                   spans: seq<WireSpan>, budget: nat)
    requires Reaches(laneCount, capacity, keys, moves, c)
    requires |spans| == |c.closed| && forall i :: 0 <= i < |spans| ==> spans[i].id == c.closed[i].id
    ensures forall r :: r in c.log ==> (r in c.closed) != Somewhere(c.lanes, r)
    ensures EventJoin.DistinctRecords(c.closed)
    ensures Forest.Unused(Forest.Fresh(budget), spans)
  {
    ReachesInv(laneCount, capacity, keys, moves, c);
    hide Reaches, IdsInv, SlotsInv, Live, At, HandedOut, ParentOk;
    forall i, j | 0 <= i < j < |c.closed| ensures c.closed[i].id != c.closed[j].id {
      assert c.closed[i] in c.closed && c.closed[j] in c.closed;
      RecordsDiffer(c.log, c.closed[i], c.closed[j]);
    }
    Reference.DistinctMeansUnique(spans);
    assert Forest.Everything(Forest.Fresh(budget)) + multiset(spans) == multiset(spans);
  }

  // ── One span's way through the cache, other threads running meanwhile ──

  ghost predicate OthersOnly(moves: seq<Move>, t: nat) {
    forall m :: m in moves ==> m.thread != t
  }

  /** `d` is a later state in which thread `t` stands where it stood in `c`. */
  ghost predicate Undisturbed(c: Cache, d: Cache, t: nat) {
    && d.keys == c.keys && d.bits == c.bits && d.cap == c.cap && |d.lanes| == |c.lanes|
    && t < |c.phases| && t < |d.phases| && d.phases[t] == c.phases[t]
    && t < |c.stacks| && t < |d.stacks| && d.stacks[t] == c.stacks[t]
    && t < |c.ops| && t < |d.ops| && d.ops[t] == c.ops[t]
    && t < |c.entered| && t < |d.entered| && d.entered[t] == c.entered[t]
    && c.log <= d.log
  }

  lemma OtherStepLeavesMe(c: Cache, u: nat, step: Step, t: nat)
    requires Inv(c) && Enabled(c, u, step) && t < |c.keys| && t != u
    ensures Undisturbed(c, Next(c, u, step), t)
  {
    hide IdsInv, SlotsInv, LineageInv, PlaceInv, LiveCount, Encode, Decode, ParentFor;
    StepKeepsShape(c, u, step);
  }

  /** Other threads leave a thread's stack and its place in `new_span` alone, and only add records. */
  lemma {:induction false} OthersLeaveMe(c: Cache, t: nat, moves: seq<Move>)
    requires Inv(c) && t < |c.keys| && OthersOnly(moves, t) && Run(c, moves).Some?
    ensures Inv(Run(c, moves).value) && Undisturbed(c, Run(c, moves).value, t)
  {
    hide IdsInv, SlotsInv, LineageInv, PlaceInv, Enabled, Next;
    if moves == [] {
    } else {
      var front, m := moves[..|moves| - 1], moves[|moves| - 1];
      assert moves == front + [m] && m in moves;
      OthersLeaveMe(c, t, front);
      OtherStepLeavesMe(Run(c, front).value, m.thread, m.step, t);
    }
  }

  // ── Which span is meant, and when the stack knows ──

  /** The thread's stack is the list of spans it has entered and not exited. */
  ghost predicate InStep(c: Cache, t: nat) {
    t < |c.stacks| && t < |c.entered| && c.stacks[t] == c.entered[t]
  }

  /** The exit names the innermost span still entered, or nothing is entered. */
  ghost predicate NamesInnermost(entered: seq<Stacked>, id: nat) {
    entered == [] || entered[|entered| - 1].tracingId == id
  }

  /** Forgetting an id drops the innermost entry exactly when the id is the innermost one's. */
  lemma {:induction false} ForgetIsPopIff(entered: seq<Stacked>, id: nat)
    ensures Forget(entered, id) == Popped(entered) <==> NamesInnermost(entered, id)
  {
    if entered == [] {
    } else {
      var n := |entered| - 1;
      var front, last := entered[..n], entered[n];
      ForgetIsPopIff(front, id);
      SnocSplits(Forget(front, id), last, front);
    }
  }

  lemma SnocSplits<T>(a: seq<T>, x: T, s: seq<T>)
    ensures a + [x] == s ==> s != [] && s[|s| - 1] == x && s[..|s| - 1] == a
  {
  }

  /** Entering a span pushes the id of the very record its tracing id leads to. */
  lemma EnterNamesTheSpan(c: Cache, t: nat, id: nat)
    requires Inv(c) && Enabled(c, t, Enter(id))
    ensures id in c.open ==> Decode(c.bits, id).Some? && Live(c.lanes, Decode(c.bits, id).value)
    ensures Next(c, t, Enter(id)).stacks[t] == c.stacks[t] + [Stacked(id, NamedId(c, id))]
    ensures id in c.open ==> NamedId(c, id) == At(c.lanes, Decode(c.bits, id).value).id
    ensures Next(c, t, Enter(id)).entered[t] == c.entered[t] + [Stacked(id, NamedId(c, id))]
  {
    hide IdsInv, LineageInv, PlaceInv, LiveCount, Encode, Decode;
    NotDecoded(c.bits);
    if id in c.open {
      assert OpenOk(c, id);
    }
  }

  /** A stack that is in step stays so, unless its own thread exits another span than the innermost. */
  lemma StaysInStepIff(c: Cache, u: nat, step: Step, t: nat)
    requires Inv(c) && Enabled(c, u, step) && InStep(c, t)
    ensures InStep(Next(c, u, step), t)
            <==> (u == t && step.Exit? ==> NamesInnermost(c.entered[t], step.tracingId))
  {
    hide IdsInv, SlotsInv, LineageInv, PlaceInv, OpsInv, LiveCount, Encode, Decode, ParentFor, Forget, NamedId;
    StepKeepsShape(c, u, step);
    if u == t && step.Exit? {
      ForgetIsPopIff(c.entered[t], step.tracingId);
    } else if u == t && step.Enter? {
      EnterNamesTheSpan(c, t, step.tracingId);
    }
  }

  /** Every exit of the thread in this run names the innermost span still entered. */
  ghost predicate ExitsInOrder(c: Cache, moves: seq<Move>, t: nat)
    requires Inv(c) && Run(c, moves).Some?
  {
    if moves == [] then true
    else
      var front, m := moves[..|moves| - 1], moves[|moves| - 1];
      ExitsInOrder(c, front, t) &&
      (m.thread == t && m.step.Exit? && t < |Run(c, front).value.entered| ==>
         NamesInnermost(Run(c, front).value.entered[t], m.step.tracingId))
  }

  ghost predicate InStepAfter(c: Cache, moves: seq<Move>, t: nat)
    requires Inv(c)
  {
    Run(c, moves).Some? && InStep(Run(c, moves).value, t)
  }

  /** The stack is the list of entered spans all through a run exactly when every exit of the thread
      names the innermost one. */
  lemma {:induction false} InStepIffExitsInOrder(c: Cache, moves: seq<Move>, t: nat)
    requires Inv(c) && InStep(c, t) && Run(c, moves).Some?
    ensures (forall n :: 0 <= n <= |moves| ==> InStepAfter(c, moves[..n], t)) <==> ExitsInOrder(c, moves, t)
  {
    hide Inv, Enabled, Next, InStep, NamesInnermost;
    if moves == [] {
      assert moves[..0] == moves;
    } else {
      var front, m := moves[..|moves| - 1], moves[|moves| - 1];
      InStepIffExitsInOrder(c, front, t);
      assert moves[..|moves|] == moves;
      forall n | 0 <= n <= |front| ensures moves[..n] == front[..n] {}
      if forall n :: 0 <= n <= |front| ==> InStepAfter(c, front[..n], t) {
        assert front[..|front|] == front && InStepAfter(c, front, t);
        StaysInStepIff(Run(c, front).value, m.thread, m.step, t);
        InStepHasThread(Run(c, front).value, t);
        if InStepAfter(c, moves, t) {
          forall n | 0 <= n <= |moves| ensures InStepAfter(c, moves[..n], t) {
            if n <= |front| {
              assert InStepAfter(c, front[..n], t);
            }
          }
        } else {
          assert !InStepAfter(c, moves[..|moves|], t);
        }
      } else {
        var n :| 0 <= n <= |front| && !InStepAfter(c, front[..n], t);
        assert !InStepAfter(c, moves[..n], t);
      }
    }
  }

  lemma InStepHasThread(c: Cache, t: nat)
    requires InStep(c, t)
    ensures t < |c.entered|
  {
  }

  lemma RunSnoc(c: Cache, moves: seq<Move>, m: Move, d: Cache)
    requires Inv(c) && Run(c, moves) == Some(d) && Enabled(d, m.thread, m.step)
    ensures Run(c, moves + [m]) == Some(Next(d, m.thread, m.step))
  {
    hide Inv, Enabled, Next;
    assert (moves + [m])[..|moves|] == moves;
  }

  /** A thread with nothing in progress enters an open span. */
  lemma EnterRuns(c: Cache, moves: seq<Move>, d: Cache, t: nat, id: nat)
    requires Inv(c) && Run(c, moves) == Some(d) && t < |d.keys| && d.phases[t].Idle? && id in d.open
    ensures var e := d.(stacks := d.stacks[t := d.stacks[t] + [Stacked(id, NamedId(d, id))]],
                        entered := d.entered[t := d.entered[t] + [Stacked(id, NamedId(d, id))]]);
            Run(c, moves + [Move(t, Enter(id))]) == Some(e) && Inv(e)
  {
    hide IdsInv, SlotsInv, LineageInv, PlaceInv, OpsInv, LiveCount, Encode, Decode, NamedId;
    RunSnoc(c, moves, Move(t, Enter(id)), d);
    EnterNamesTheSpan(d, t, id);
    StepKeeps(d, t, Enter(id));
  }

  lemma CrossedLists(s: seq<Stacked>, a: Stacked, b: Stacked)
    requires a.tracingId != b.tracingId
    ensures Popped(s + [a] + [b]) == s + [a] && Forget(s + [a] + [b], a.tracingId) == s + [b]
  {
    assert (s + [a] + [b])[..|s| + 1] == s + [a] && (s + [a])[..|s|] == s;
  }

  /** Enter `a`, enter `b`, exit `a`: still entered is `b`, but the stack holds `a`, and the next
      contextual span or event goes there. */
  lemma CrossedExitMisleads(c: Cache, t: nat, a: nat, b: nat)
    requires Inv(c) && InStep(c, t) && t < |c.keys| && c.phases[t].Idle? && a != b && a in c.open && b in c.open
    ensures var run := Run(c, [Move(t, Enter(a)), Move(t, Enter(b)), Move(t, Exit(a))]);
            && run.Some? && Inv(run.value) && run.value.keys == c.keys
            && run.value.entered[t] == c.entered[t] + [Stacked(b, NamedId(c, b))]
            && ParentFor(run.value, t, Contextual) == Some(Some(NamedId(c, a)))
            && IsMeant(run.value, t, Contextual, Some(NamedId(c, b))) && NamedId(c, a) != NamedId(c, b)
            && !IsMeant(run.value, t, Contextual, Some(NamedId(c, a)))
  {
    hide IdsInv, SlotsInv, LineageInv, PlaceInv, OpsInv, LiveCount, Encode, Decode, NamedId, Forget, Popped, Run, Inv;
    InvShaped(c);
    NamesDiffer(c, a, b);
    RunNothing(c);
    EnterRuns(c, [], c, t, a);
    assert [] + [Move(t, Enter(a))] == [Move(t, Enter(a))];
    var x, y := Stacked(a, NamedId(c, a)), Stacked(b, NamedId(c, b));
    var s := c.stacks[t];
    var c1 := c.(stacks := c.stacks[t := s + [x]], entered := c.entered[t := s + [x]]);
    SameNames(c, c1, b);
    EnterRuns(c, [Move(t, Enter(a))], c1, t, b);
    var c2 := c.(stacks := c.stacks[t := s + [x] + [y]], entered := c.entered[t := s + [x] + [y]]);
    assert c1.(stacks := c1.stacks[t := s + [x] + [y]], entered := c1.entered[t := s + [x] + [y]]) == c2;
    var two := [Move(t, Enter(a))] + [Move(t, Enter(b))];
    InvShaped(c2);
    RunSnoc(c, two, Move(t, Exit(a)), c2);
    assert two + [Move(t, Exit(a))] == [Move(t, Enter(a)), Move(t, Enter(b)), Move(t, Exit(a))];
    CrossedLists(s, x, y);
    StepKeeps(c2, t, Exit(a));
    InvShaped(Next(c2, t, Exit(a)));
  }

  lemma RunNothing(c: Cache)
    requires Inv(c)
    ensures Run(c, []) == Some(c)
  {
  }

  lemma InvShaped(c: Cache)
    requires Inv(c)
    ensures Shaped(c) && |c.lanes| > 0
  {
  }

  lemma SameNames(c: Cache, d: Cache, id: nat)
    requires c.bits <= 8 && d.bits == c.bits && d.lanes == c.lanes
    ensures NamedId(d, id) == NamedId(c, id)
  {
  }

  /** Distinct open tracing ids lead to distinct records. */
  lemma NamesDiffer(c: Cache, a: nat, b: nat)
    requires Inv(c) && a in c.open && b in c.open && a != b
    ensures NamedId(c, a) != NamedId(c, b) && a != DISABLED && b != DISABLED
  {
    hide IdsInv, OpsInv, LineageInv, Encode, Decode;
    assert OpenOk(c, a) && OpenOk(c, b);
    var x, y := Decode(c.bits, a).value, Decode(c.bits, b).value;
    assert At(c.lanes, x) in c.log && At(c.lanes, y) in c.log && At(c.lanes, x) != At(c.lanes, y);
    LogIsOk(c);
    RecordsDiffer(c.log, At(c.lanes, x), At(c.lanes, y));
  }

  lemma LogIsOk(c: Cache)
    requires Inv(c)
    ensures LogOk(c.log)
  {
  }

  /** The span a caller means: the innermost one it has entered and not exited, or the open one it
      names.  A root means none, and is taken only where nothing is entered. */
  ghost predicate IsMeant(c: Cache, t: nat, how: Parenting, parent: Option<nat>)
    requires Shaped(c) && t < |c.keys|
  {
    match how
    case Root => parent.None? && c.entered[t] == []
    case Contextual =>
      var n := |c.entered[t]|;
      n > 0 && c.entered[t][n - 1].tracingId != DISABLED && parent == Some(c.entered[t][n - 1].actualId)
    case Explicit(id) =>
      id in c.open && Decode(c.bits, id).Some? && Live(c.lanes, Decode(c.bits, id).value)
      && parent == Some(At(c.lanes, Decode(c.bits, id).value).id)
  }

  /** Meant, spelt out. */
  lemma MeantIs(c: Cache, t: nat, p: Option<nat>, id: nat)
    requires Shaped(c) && t < |c.keys|
    ensures IsMeant(c, t, Root, p) <==> p == None && c.entered[t] == []
    ensures IsMeant(c, t, Contextual, p) <==>
            (c.entered[t] != [] && c.entered[t][|c.entered[t]| - 1].tracingId != 1
             && p == Some(c.entered[t][|c.entered[t]| - 1].actualId))
    ensures IsMeant(c, t, Explicit(id), p) <==>
            (id in c.open && Decode(c.bits, id).Some? && Live(c.lanes, Decode(c.bits, id).value)
             && p == Some(At(c.lanes, Decode(c.bits, id).value).id))
  {
  }

  /** Exiting takes the innermost entry of that id off the list, and leaves the list alone if there is
      none. */
  lemma {:induction false} ForgetIs(entered: seq<Stacked>, id: nat, n: nat)
    ensures (forall i :: 0 <= i < |entered| ==> entered[i].tracingId != id) ==> Forget(entered, id) == entered
    ensures n < |entered| && entered[n].tracingId == id
            && (forall i :: n < i < |entered| ==> entered[i].tracingId != id)
            ==> Forget(entered, id) == entered[..n] + entered[n + 1..]
  {
    if entered == [] {
    } else {
      var last := |entered| - 1;
      var front := entered[..last];
      ForgetIs(front, id, n);
      assert entered == front + [entered[last]];
      if n < last {
        assert front[..n] == entered[..n] && front[n + 1..] + [entered[last]] == entered[n + 1..];
      }
    }
  }

  /** The cache finds the span that is meant, always when it is named, and otherwise while the stack
      is in step. */
  lemma ResolveFindsMeant(c: Cache, t: nat, how: Parenting)
    requires Inv(c) && Enabled(c, t, Resolve(how)) && (how.Explicit? || InStep(c, t))
    ensures ParentFor(c, t, how).Some? <==> exists p :: IsMeant(c, t, how, p)
    ensures ParentFor(c, t, how).Some? ==> IsMeant(c, t, how, ParentFor(c, t, how).value)
  {
    hide IdsInv, LineageInv, PlaceInv, LiveCount, Encode, Decode;
    NotDecoded(c.bits);
    if how.Explicit? && how.tracingId in c.open {
      assert OpenOk(c, how.tracingId);
    }
    var p := ParentFor(c, t, how);
    if p.Some? {
      assert IsMeant(c, t, how, p.value);
    }
  }

  /** An event goes to the span it means, a recorded one, or is dropped when it means none. */
  lemma EmitNamesTheSpan(c: Cache, t: nat, how: Parenting, body: nat)
    requires Inv(c) && Enabled(c, t, Emit(how, body)) && (how.Explicit? || InStep(c, t))
    ensures var p := EventParent(c, t, how);
            && (p.Some? <==> exists q: Option<nat> :: q.Some? && IsMeant(c, t, ForEvent(how), q))
            && (p.Some? ==> IsMeant(c, t, ForEvent(how), p) && Logged(c.log, p.value))
            && Next(c, t, Emit(how, body)).ops[t]
               == c.ops[t] + if p.Some? then [EventJoin.Emitted(Message(p.value, body))] else []
  {
    hide IdsInv, SlotsInv, LineageInv, PlaceInv, OpsInv, LiveCount, Encode, Decode, Logged, ParentFor;
    ResolveFindsMeant(c, t, ForEvent(how));
    ParentForIsOk(c, t, ForEvent(how));
    assert c.ops[t] + [] == c.ops[t];
  }

  lemma InsertRecords(e: Cache, t: nat, slot: nat)
    requires Inv(e) && Enabled(e, t, Insert(slot)) && LiveCount(e.lanes[LaneOf(e, t)].slots) < e.cap
    ensures Next(e, t, Insert(slot)).log == e.log + [e.phases[t].rec] && !Logged(e.log, e.phases[t].rec.id)
  {
    hide IdsInv, SlotsInv, PlaceInv, LiveCount, Encode, Decode, LogOk, StackOk, HandedOut, Logged;
    LineageFacts(e.log, e.handed, e.phases, e.stacks, t);
  }

  /** Whatever other threads do in between (`c1` to `d`, `d1` to `e`), `new_span` records one span,
      under an id never recorded before, whose parent is the span the caller meant when it began: the
      one it named, or, its stack being in step, the innermost one entered. */
  lemma NewSpanRecords(c: Cache, t: nat, how: Parenting, c1: Cache, a: seq<Move>, d: Cache, d1: Cache, b: seq<Move>,
                       e: Cache, slot: nat)
    requires Inv(c) && Enabled(c, t, Resolve(how)) && ParentFor(c, t, how).Some? && (how.Explicit? || InStep(c, t))
    requires c1 == Next(c, t, Resolve(how)) && Inv(c1) && OthersOnly(a, t) && Run(c1, a) == Some(d)
    requires Enabled(d, t, Number) && d1 == Next(d, t, Number) && Inv(d1) && OthersOnly(b, t) && Run(d1, b) == Some(e)
    requires Enabled(e, t, Insert(slot)) && LiveCount(e.lanes[LaneOf(e, t)].slots) < e.cap
    ensures Inv(e) && exists id, parent ::
      && Next(e, t, Insert(slot)).log == e.log + [Record(id, parent, [])]
      && !Logged(e.log, id) && IsMeant(c, t, how, parent)
  {
    hide IdsInv, SlotsInv, LineageInv, PlaceInv, LiveCount, Encode, Decode, ParentFor, IsMeant, Logged, Run;
    ResolveFindsMeant(c, t, how);
    OthersLeaveMe(c1, t, a);
    OthersLeaveMe(d1, t, b);
    InsertRecords(e, t, slot);
    var rec := e.phases[t].rec;
    assert rec == d1.phases[t].rec;
    assert rec == Record(rec.id, ParentFor(c, t, how).value, []);
  }

  /** The tracing id handed to the caller leads to the span just recorded. */
  lemma PublishNamesTheSpan(c: Cache, t: nat)
    requires Inv(c) && Enabled(c, t, Publish)
    ensures var id, d := Encode(c.bits, Addr(LaneOf(c, t), c.phases[t].slot)), Next(c, t, Publish);
            && id !in c.open && d.open == c.open + {id}
            && Decode(d.bits, id).Some? && Live(d.lanes, Decode(d.bits, id).value)
            && At(d.lanes, Decode(d.bits, id).value) == c.phases[t].rec
            && Sidecar(d.lanes, Decode(d.bits, id).value) == c.phases[t].rec.id
  {
    hide IdsInv, LineageInv, PlaceInv, LiveCount, Encode, Decode;
    FlightFacts(c, t);
    Distinguish(c, Flight(c, t).value, Flight(c, t).value);
  }

  /** The lanes together have room for the capacity asked for, and no lane more than it takes. */
  lemma CapacityIs(laneCount: nat, capacity: nat, keys: seq<nat>)
    ensures var c := Fresh(laneCount, capacity, keys);
            && |c.lanes| == Pow2(LaneBits(laneCount))
            && capacity <= c.cap * |c.lanes| < capacity + |c.lanes|
  {
    hide LaneBits, Pow2;
    var n := Pow2(LaneBits(laneCount));
    var x := capacity + n - 1;
    assert x == (x / n) * n + x % n;
  }

  /** A thread keeps to the lane its key falls on. */
  lemma LaneIs(c: Cache, t: nat)
    requires t < |c.keys| && |c.lanes| > 0
    ensures LaneOf(c, t) < |c.lanes| && exists q :: c.keys[t] == q * |c.lanes| + LaneOf(c, t)
  {
    var n := |c.lanes|;
    assert c.keys[t] == (c.keys[t] / n) * n + c.keys[t] % n;
  }
}
