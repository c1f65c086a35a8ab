/** Mailbox dependencies, wire messages and the six-field key that joins them. */
module Matching {
  import opened Prelude

  type Address = b: bytes | |b| == 20 witness seq(20, _ => 0)

  const SESSION_ID_BYTES: nat := 32

  type u256 = x: int | 0 <= x < Pow256(SESSION_ID_BYTES)

  datatype DependencyKey = DependencyKey(
    sourceChain: u64, destChain: u64, sender: Address, receiver: Address, sessionId: u256, labelBytes: bytes)

  /** A mailbox read; `data` is filled in once a message has fulfilled it. */
  datatype Dependency = Dependency(
    sourceChain: u64, destChain: u64, sender: Address, receiver: Address,
    labelBytes: bytes, data: Option<bytes>, sessionId: u256)

  /** A mailbox write. */
  datatype Outbound = Outbound(
    sourceChain: u64, destChain: u64, sender: Address, receiver: Address,
    labelBytes: bytes, data: bytes, sessionId: u256)

  /** The protobuf message: addresses and the session id arrive as plain byte strings. */
  datatype Message = Message(
    instanceId: bytes, sourceChain: u64, destChain: u64, sender: bytes, receiver: bytes,
    labelBytes: bytes, payload: bytes, sessionId: bytes)

  // ---------- Wire form of the session id ----------

  function EncodeSessionId(id: u256): bytes {
    ToBigEndian(id, SESSION_ID_BYTES)
  }

  function DecodeSessionId(b: bytes): Option<u256> {
    if |b| != SESSION_ID_BYTES then None else DecodeThenEncode(b); Some(FromBigEndian(b))
  }

  /** Every session id survives the wire; every well-sized byte string is the encoding of what it decodes to. */
  lemma SessionIdRoundTrip(id: u256, b: bytes)
    ensures |EncodeSessionId(id)| == 32 && FromBigEndian(EncodeSessionId(id)) == id
    ensures DecodeSessionId(EncodeSessionId(id)) == Some(id)
    ensures DecodeSessionId(b).Some? ==> EncodeSessionId(DecodeSessionId(b).value) == b
  {
    EncodeThenDecodeExact(id, SESSION_ID_BYTES);
    DecodeThenEncode(b);
  }

  // ---------- Keys ----------

  function KeyOf(d: Dependency): DependencyKey {
    DependencyKey(d.sourceChain, d.destChain, d.sender, d.receiver, d.sessionId, d.labelBytes)
  }

  function OutboundKey(m: Outbound): DependencyKey {
    DependencyKey(m.sourceChain, m.destChain, m.sender, m.receiver, m.sessionId, m.labelBytes)
  }

  /** The key a message carries, when its addresses and session id are well-formed. */
  function MessageKey(m: Message): Option<DependencyKey> {
    if |m.sender| != 20 || |m.receiver| != 20 || DecodeSessionId(m.sessionId).None? then None
    else Some(DependencyKey(m.sourceChain, m.destChain, m.sender, m.receiver, DecodeSessionId(m.sessionId).value,
        m.labelBytes))
  }

  /** Field-by-field comparison in the source's order, each malformed field a mismatch. */
  predicate MatchesDependency(m: Message, d: Dependency) {
    if m.sourceChain != d.sourceChain then false
    else if m.destChain != d.destChain then false
    else if m.labelBytes != d.labelBytes then false
    else if |m.sender| != 20 then false
    else if m.sender != d.sender then false
    else if |m.receiver| != 20 then false
    else if m.receiver != d.receiver then false
    else match DecodeSessionId(m.sessionId)
      case None => false
      case Some(s) => s == d.sessionId
  }

  predicate DependencyKeysEqual(l: Dependency, r: Dependency) {
    && l.sourceChain == r.sourceChain
    && l.destChain == r.destChain
    && l.sender == r.sender
    && l.receiver == r.receiver
    && l.sessionId == r.sessionId
    && l.labelBytes == r.labelBytes
  }

  /** What the sidecar puts on the wire for a mailbox write of the XT with raw id `instanceId`. */
  function ToWire(instanceId: bytes, m: Outbound): Message {
    Message(instanceId, m.sourceChain, m.destChain, m.sender, m.receiver, m.labelBytes, m.data,
        EncodeSessionId(m.sessionId))
  }

  /**
    A message matches at most one key: two dependencies that one message matches
    have equal keys, and a message matches exactly the dependencies of its own key.
   */
  lemma MatchIsKeyEquality(m: Message, d: Dependency, d': Dependency)
    ensures MatchesDependency(m, d) <==> MessageKey(m) == Some(KeyOf(d))
    ensures MatchesDependency(m, d) && MatchesDependency(m, d') ==> DependencyKeysEqual(d, d')
    ensures DependencyKeysEqual(d, d') <==> KeyOf(d) == KeyOf(d')
  {
  }

  /** A message matches a read exactly when it spells the six fields of the read; malformed ones match nothing. */
  lemma MatchesExactlyWhen(m: Message, d: Dependency)
    ensures MatchesDependency(m, d) <==>
            && m.sourceChain == d.sourceChain && m.destChain == d.destChain
            && m.sender == d.sender && m.receiver == d.receiver && m.labelBytes == d.labelBytes
            && |m.sessionId| == 32 && FromBigEndian(m.sessionId) == d.sessionId
  {
  }

  /** Through the wire, a write on one chain meets exactly the reads with its six fields, with its payload. */
  lemma WireDeliversToItsKey(instanceId: bytes, m: Outbound, d: Dependency)
    ensures MatchesDependency(ToWire(instanceId, m), d) <==>
            && m.sourceChain == d.sourceChain && m.destChain == d.destChain && m.sender == d.sender
            && m.receiver == d.receiver && m.sessionId == d.sessionId && m.labelBytes == d.labelBytes
    ensures MatchesDependency(ToWire(instanceId, m), d) <==> OutboundKey(m) == KeyOf(d)
    ensures ToWire(instanceId, m).instanceId == instanceId && ToWire(instanceId, m).payload == m.data
  {
    SessionIdRoundTrip(m.sessionId, []);
  }
}
