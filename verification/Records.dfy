/** What the cache hands to its driver. */
module Records {
  import opened Spans

  /** A closed span; `events` are the bodies attached to it. */
  datatype Record = Record(id: nat, parent: Option<nat>, events: seq<nat>)

  /** An event on its way, addressed to the span it belongs to. */
  datatype Message = Message(parent: nat, body: nat)
}
