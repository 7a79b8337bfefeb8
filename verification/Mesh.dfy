/** Mesh messages (crates/mycelium-core/src/data.rs and transport.rs). */
module Mesh {
  import opened Words

  type Peer = string
  type Id = string

  datatype Priority = Low | Normal | High

  datatype NodeState = Active | Intermittent | Passive

  /** An envelope together with its body; keys, payload bytes and the signature itself are left abstract. */
  datatype Message = Message(
    id: Id,
    fromPeer: Peer,
    toPeer: Option<Peer>,
    createdAt: u64,
    ttlSecs: u32,
    priority: Priority,
    hopCount: u8,
    maxHops: u8,
    authorPeer: Option<Peer>,
    body: string)
  {
    function Expiry(): u64 {
      SatAdd(createdAt, ttlSecs * 1000)
    }

    predicate Expired(now: u64) {
      now >= Expiry()
    }

    /** The peer whose key signed the envelope, which a relay hop does not change. */
    function Author(): Peer {
      if authorPeer.Some? then authorPeer.value else fromPeer
    }
  }
}
