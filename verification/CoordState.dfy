/**
  The coordinator's shared state and, for each handler, what one critical
  section (one hold of the state lock) does to it.
 */
module CoordState {
  import opened Prelude
  import opened Matching
  import opened Xt
  import Admission

  const MAX_PENDING_XTS: nat := 100
  const MAILBOX_BUFFER_MAX_KEYS: nat := 1024
  const MAILBOX_BUFFER_MAX_PER_KEY: nat := 256

  type Fingerprint = bytes

  datatype Coord = Coord(
    pending: map<Id, PendingXt>,
    period: Admission.Period,
    originSeq: nat,
    fingerprints: map<Fingerprint, Id>,
    index: map<bytes, Id>,
    buffer: map<bytes, seq<Message>>)

  const INITIAL: Coord := Coord(map[], Admission.CLOSED, 0, map[], map[], map[])

  // ---------- Instance ids ----------

  function Decimal(n: nat): bytes {
    if n < 10 then [48 + n] else Decimal(n / 10) + [48 + n % 10]
  }

  /** `xt-{chain}-{seq}`; the raw id of a standalone XT is the same bytes. */
  function StandaloneId(chain: ChainId, seqNum: nat): Id {
    [120, 116, 45] + Decimal(chain) + [45] + Decimal(seqNum)
  }

  /** The number a run of decimal digits denotes. */
  ghost function DecimalValue(b: bytes): int {
    if b == [] then 0 else 10 * DecimalValue(b[..|b| - 1]) - 48 + b[|b| - 1]
  }

  lemma {:induction false} DecimalReadsBack(n: nat)
    ensures DecimalValue(Decimal(n)) == n
  {
    if n >= 10 {
      DecimalReadsBack(n / 10);
      assert Decimal(n)[..|Decimal(n)| - 1] == Decimal(n / 10);
    }
  }

  lemma {:induction false} DecimalDigits(n: nat, i: nat)
    requires i < |Decimal(n)|
    ensures Decimal(n)[i] >= 48
  {
    if n >= 10 && i < |Decimal(n)| - 1 { DecimalDigits(n / 10, i); }
  }

  /** The first dash after the prefix ends the chain's digits. */
  lemma ChainDigitsEnd(c: ChainId, a: nat, d: ChainId, b: nat)
    requires StandaloneId(c, a) == StandaloneId(d, b)
    ensures |Decimal(c)| >= |Decimal(d)|
  {
    assert StandaloneId(c, a)[3 + |Decimal(c)|] == 45;
    forall i | 3 <= i < 3 + |Decimal(d)| ensures StandaloneId(d, b)[i] != 45 {
      DecimalDigits(d, i - 3);
      assert StandaloneId(d, b)[i] == Decimal(d)[i - 3];
    }
  }

  /** Distinct chains, and distinct sequence numbers of one chain, mint distinct ids. */
  lemma StandaloneIdInjective(c: ChainId, a: nat, d: ChainId, b: nat)
    requires StandaloneId(c, a) == StandaloneId(d, b)
    ensures c == d && a == b
  {
    ChainDigitsEnd(c, a, d, b);
    ChainDigitsEnd(d, b, c, a);
    var x, y, n := StandaloneId(c, a), StandaloneId(d, b), |Decimal(c)|;
    assert x[3..3 + n] == Decimal(c) && y[3..3 + n] == Decimal(d);
    assert x[4 + n..] == Decimal(a) && y[4 + n..] == Decimal(b);
    DecimalReadsBack(c);
    DecimalReadsBack(d);
    DecimalReadsBack(a);
    DecimalReadsBack(b);
  }

  /** A decimal numeral: digits only, and no zero in front of others. */
  predicate Numeral(b: bytes) {
    b != [] && (forall i :: 0 <= i < |b| ==> 48 <= b[i] <= 57) && (|b| > 1 ==> b[0] != 48)
  }

  lemma {:induction false} DecimalIsNumeral(n: nat)
    ensures Numeral(Decimal(n)) && (Decimal(n)[0] == 48 <==> n == 0)
  {
    if n >= 10 { DecimalIsNumeral(n / 10); }
  }

  /** A minted id is `xt-`, the chain's number, a dash and the sequence number, both in decimal. */
  lemma StandaloneIdText(chain: ChainId, n: nat)
    ensures exists a, b :: StandaloneId(chain, n) == [120, 116, 45] + a + [45] + b
                        && Numeral(a) && DecimalValue(a) == chain && Numeral(b) && DecimalValue(b) == n
  {
    DecimalIsNumeral(chain);
    DecimalIsNumeral(n);
    DecimalReadsBack(chain);
    DecimalReadsBack(n);
  }

  function HexDigit(n: int): byte
    requires 0 <= n < 16
  {
    if n < 10 then 48 + n else 87 + n
  }

  /** A publisher instance is known by the hex form of its raw id. */
  function PublisherId(raw: bytes): Id {
    if raw == [] then [] else [HexDigit(raw[0] / 16), HexDigit(raw[0] % 16)] + PublisherId(raw[1..])
  }

  /** The value of a lower-case hex digit. */
  function HexValue(c: byte): int {
    if 48 <= c <= 57 then c - 48 else if 97 <= c <= 102 then c - 87 else -1
  }

  lemma {:induction false} PublisherIdLength(raw: bytes)
    ensures |PublisherId(raw)| == 2 * |raw|
  {
    if raw != [] { PublisherIdLength(raw[1..]); }
  }

  /** A publisher id spells each byte as two lower-case hex digits. */
  lemma {:induction false} PublisherIdText(raw: bytes, i: nat)
    requires i < |raw|
    ensures |PublisherId(raw)| == 2 * |raw|
    ensures var h, l := HexValue(PublisherId(raw)[2 * i]), HexValue(PublisherId(raw)[2 * i + 1]);
            h >= 0 && l >= 0 && 16 * h + l == raw[i]
  {
    PublisherIdLength(raw);
    PublisherIdLength(raw[1..]);
    if i > 0 { PublisherIdText(raw[1..], i - 1); }
  }

  lemma PublisherIdInjective(a: bytes, b: bytes)
    ensures |PublisherId(a)| == 2 * |a|
    ensures PublisherId(a) == PublisherId(b) ==> a == b
  {
    PublisherIdLength(a);
    PublisherIdLength(b);
    if PublisherId(a) == PublisherId(b) {
      forall i | 0 <= i < |a| ensures a[i] == b[i] {
        PublisherIdText(a, i);
        PublisherIdText(b, i);
      }
    }
  }

  // ---------- Pieces shared by the handlers ----------

  function Undecided(pending: map<Id, PendingXt>): set<Id> {
    set id | id in pending && pending[id].decision.None?
  }

  predicate Full(pending: map<Id, PendingXt>) {
    |Undecided(pending)| >= MAX_PENDING_XTS
  }

  function Bucket(buffer: map<bytes, seq<Message>>, raw: bytes): seq<Message> {
    if raw in buffer then buffer[raw] else []
  }

  /** Index and insert a new XT, handing it the messages that arrived before it. */
  function RegisterDraining(c: Coord, xt: PendingXt): Coord {
    c.(index := c.index[xt.rawId := xt.id],
       pending := c.pending[xt.id := xt.(box := xt.box.(pending := xt.box.pending + Bucket(c.buffer, xt.rawId)))],
       buffer := c.buffer - {xt.rawId})
  }

  /** An orphan message is dropped when its key is new and the buffer is full, or its bucket is full. */
  predicate BufferRefuses(c: Coord, m: Message) {
    || (m.instanceId !in c.buffer && |c.buffer| >= MAILBOX_BUFFER_MAX_KEYS)
    || |Bucket(c.buffer, m.instanceId)| >= MAILBOX_BUFFER_MAX_PER_KEY
  }

  function BufferOrphan(c: Coord, m: Message): Coord {
    if BufferRefuses(c, m) then c
    else c.(buffer := c.buffer[m.instanceId := Bucket(c.buffer, m.instanceId) + [m]])
  }

  /** Stale XTs that a new period aborts: publisher XTs of an older period, neither confirmed nor committed. */
  predicate Stale(xt: PendingXt, p: u64) {
    xt.period != 0 && xt.period < p && !xt.confirmed && xt.decision != Some(true)
  }

  // ---------- Critical sections ----------

  datatype Step =
    | Submit(fp: Fingerprint, txs: map<ChainId, seq<Tx>>)
    | ForwardedXt(id: Id, txs: map<ChainId, seq<Tx>>, origin: ChainId, originSeq: nat)
    | StartInstance(raw: bytes, p: u64, q: u64, txs: map<ChainId, seq<Tx>>)
    | MailboxMessage(msg: Message)
    | LocalVote(id: Id, vote: bool, standalone: bool)
    | HearPeerVote(id: Id, chain: ChainId, vote: bool)
    | OnDecision(id: Id, decision: bool)
    | StartPeriod(p: u64)
    | Rollback
    | ConfirmIncluded(ids: set<Id>)
    | RemovePending(id: Id)
    | Cleanup(aged: set<Id>)
    | LockLocal(id: Id)
    | RecordSimulation(id: Id, deps: seq<Dependency>, outbound: seq<Outbound>)
    | FulfilPass(id: Id, deps: seq<Dependency>)
    | MarkSent(id: Id, keys: set<SentKey>)

  /** Chains with at least one transaction: what a forwarded XT keeps. */
  function Clean(txs: map<ChainId, seq<Tx>>): map<ChainId, seq<Tx>> {
    map c | c in txs && txs[c] != [] :: txs[c]
  }

  /** A local submission registers the transactions as given, empty lists included. */
  function NewSubmitted(self: ChainId, id: Id, seqNum: nat, txs: map<ChainId, seq<Tx>>): PendingXt {
    NewXt(id, id).(originChain := Some(self), originSeq := seqNum, rawTxs := txs, locked := {self})
  }

  function NewForwarded(self: ChainId, id: Id, txs: map<ChainId, seq<Tx>>, origin: ChainId, originSeq: nat): PendingXt {
    NewXt(id, id).(rawTxs := Clean(txs), originChain := Some(origin), originSeq := originSeq,
                   locked := if self in Clean(txs) then {self} else {})
  }

  function NewInstance(self: ChainId, raw: bytes, p: u64, q: u64, txs: map<ChainId, seq<Tx>>): PendingXt {
    NewXt(PublisherId(raw), raw).(period := p, sequence := q, rawTxs := txs,
                                  locked := if self in txs && txs[self] != [] then {self} else {})
  }

  /** Index and insert a local submission. Unlike the other registrations it drains no buffer. */
  function RegisterSubmitted(c: Coord, xt: PendingXt, fp: Fingerprint): Coord {
    c.(index := c.index[xt.rawId := xt.id],
       pending := c.pending[xt.id := xt],
       fingerprints := c.fingerprints[fp := xt.id])
  }

  /** A stale fingerprint entry is dropped even when the submission is then refused. */
  function SubmitAs(c: Coord, self: ChainId, id: Id, fp: Fingerprint, txs: map<ChainId, seq<Tx>>): Coord {
    if fp in c.fingerprints && c.fingerprints[fp] in c.pending then c
    else if Full(c.pending) then c.(fingerprints := c.fingerprints - {fp})
    else RegisterSubmitted(c.(originSeq := c.originSeq + 1), NewSubmitted(self, id, c.originSeq + 1, txs), fp)
  }

  function SubmitSection(c: Coord, self: ChainId, fp: Fingerprint, txs: map<ChainId, seq<Tx>>): Coord {
    SubmitAs(c, self, StandaloneId(self, c.originSeq + 1), fp, txs)
  }

  function ForwardedSection(
      c: Coord, self: ChainId, id: Id, txs: map<ChainId, seq<Tx>>, origin: ChainId, originSeq: nat): Coord {
    if id == [] || Clean(txs) == map[] || id in c.pending || Full(c.pending) then c
    else RegisterDraining(c, NewForwarded(self, id, txs, origin, originSeq))
  }

  function StartInstanceSection(
      c: Coord, self: ChainId, raw: bytes, p: u64, q: u64, txs: map<ChainId, seq<Tx>>): Coord {
    var id := PublisherId(raw);
    if id in c.pending || Full(c.pending) || Admission.Refusal(c.period, p, q).Some? then c
    else
      RegisterDraining(c.(period := Admission.Period(Some(p), Some(q))),
                       NewInstance(self, raw, p, q, txs))
  }

  /** A message whose XT is indexed but gone is dropped; without an index entry it is buffered. */
  function MailboxSection(c: Coord, m: Message): Coord {
    if m.instanceId in c.index then
      var id := c.index[m.instanceId];
      if id in c.pending then
        var xt := c.pending[id];
        c.(pending := c.pending[id := xt.(box := xt.box.(pending := xt.box.pending + [m]))])
      else c
    else BufferOrphan(c, m)
  }

  function Outdated(xt: PendingXt, p: u64): PendingXt {
    if Stale(xt, p) && xt.decision.None? then RecordDecision(xt, false) else xt
  }

  function StartPeriodSection(c: Coord, p: u64): Coord {
    c.(pending := map id | id in c.pending :: Outdated(c.pending[id], p),
       period := Admission.Open(p))
  }

  function RolledBack(xt: PendingXt): PendingXt {
    if xt.decision != Some(false) then RecordDecision(xt, false) else xt
  }

  function RollbackSection(c: Coord): Coord {
    c.(pending := map id | id in c.pending :: RolledBack(c.pending[id]),
       period := Admission.CLOSED,
       buffer := map[])
  }

  function ConfirmSection(c: Coord, ids: set<Id>): Coord {
    c.(pending := map id | id in c.pending :: if id in ids then c.pending[id].(confirmed := true) else c.pending[id])
  }

  function RemoveSection(c: Coord, id: Id): Coord {
    if id !in c.pending then c
    else
      c.(pending := c.pending - {id},
         index := c.index - {c.pending[id].rawId},
         fingerprints := map fp | fp in c.fingerprints && c.fingerprints[fp] != id :: c.fingerprints[fp])
  }

  /** XTs confirmed or decided longer ago than the age limit; `aged` names the ones past it. */
  function Expired(pending: map<Id, PendingXt>, aged: set<Id>): set<Id> {
    set id | id in pending && id in aged && (pending[id].confirmed || pending[id].decided)
  }

  function RawIds(pending: map<Id, PendingXt>, ids: set<Id>): set<bytes> {
    set id | id in ids && id in pending :: pending[id].rawId
  }

  function CleanupSection(c: Coord, aged: set<Id>): Coord {
    var gone := Expired(c.pending, aged);
    var pending := c.pending - gone;
    var index := c.index - RawIds(c.pending, gone);
    c.(pending := pending,
       index := index,
       fingerprints := map fp | fp in c.fingerprints && c.fingerprints[fp] in pending :: c.fingerprints[fp],
       buffer := map raw | raw in c.buffer && raw in index :: c.buffer[raw])
  }

  ghost function Next(c: Coord, self: ChainId, s: Step): Coord {
    if TouchesOne(s) then TouchSection(c, self, s) else NextShared(c, self, s)
  }

  ghost function TouchSection(c: Coord, self: ChainId, s: Step): Coord
    requires TouchesOne(s)
  {
    if s.id in c.pending then c.(pending := c.pending[s.id := Touch(c.pending[s.id], self, s)]) else c
  }

  /** The sections that may change more than the XT they name. */
  function NextShared(c: Coord, self: ChainId, s: Step): Coord
    requires !TouchesOne(s)
  {
    match s
    case Submit(fp, txs) => SubmitSection(c, self, fp, txs)
    case ForwardedXt(id, txs, origin, originSeq) => ForwardedSection(c, self, id, txs, origin, originSeq)
    case StartInstance(raw, p, q, txs) => StartInstanceSection(c, self, raw, p, q, txs)
    case MailboxMessage(m) => MailboxSection(c, m)
    case StartPeriod(p) => StartPeriodSection(c, p)
    case Rollback => RollbackSection(c)
    case ConfirmIncluded(ids) => ConfirmSection(c, ids)
    case RemovePending(id) => RemoveSection(c, id)
    case Cleanup(aged) => CleanupSection(c, aged)
  }

  predicate TouchesOne(s: Step) {
    || s.LocalVote? || s.HearPeerVote? || s.OnDecision?
    || s.LockLocal? || s.RecordSimulation? || s.FulfilPass? || s.MarkSent?
  }

  /** The effect of a handler that only changes the XT it names. */
  ghost function Touch(xt: PendingXt, self: ChainId, s: Step): PendingXt
    requires TouchesOne(s)
  {
    match s
    case LocalVote(_, vote, standalone) => SendVote(xt, self, vote, standalone)
    case HearPeerVote(_, chain, vote) => PeerVote(xt, self, chain, vote)
    case OnDecision(_, decision) => if xt.decision.Some? then xt else RecordDecision(xt, decision)
    case LockLocal(_) => xt.(locked := xt.locked + {self})
    case RecordSimulation(_, deps, outbound) => RecordOutbound(RecordDependencies(xt, deps), outbound)
    case FulfilPass(_, deps) => FulfilXt(xt, deps)
    case MarkSent(_, keys) => xt.(sentKeys := xt.sentKeys + keys)
  }

  /** The builder commands a critical section hands to the builder once the lock is dropped. */
  ghost function Commands(c: Coord, self: ChainId, s: Step): set<Command> {
    match s
    case StartPeriod(p) =>
      set id | id in c.pending && Stale(c.pending[id], p) && HasLocal(c.pending[id], self) :: AbortXt(c.pending[id].id)
    case Rollback =>
      set id | id in c.pending && HasLocal(c.pending[id], self) :: AbortXt(c.pending[id].id)
    case _ =>
      if TouchesOne(s) && s.id in c.pending then
        var cmd := CommandOnDecide(c.pending[s.id], Touch(c.pending[s.id], self, s), self);
        if cmd.Some? then {cmd.value} else {}
      else {}
  }

  /** Case analysis of a registration: it is refused, or it inserts the named XT. */
  lemma RegistrationCases(c: Coord, self: ChainId, s: Step, ok: Coord -> bool)
    requires s.Submit? || s.ForwardedXt? || s.StartInstance?
    requires ok(c)
    requires s.Submit? ==> ok(c.(fingerprints := c.fingerprints - {s.fp}))
    requires s.Submit? && !Full(c.pending) ==>
               var id := StandaloneId(self, c.originSeq + 1);
               ok(RegisterSubmitted(c.(originSeq := c.originSeq + 1), NewSubmitted(self, id, c.originSeq + 1, s.txs),
                   s.fp))
    requires s.ForwardedXt? && s.id !in c.pending && !Full(c.pending) ==>
               ok(RegisterDraining(c, NewForwarded(self, s.id, s.txs, s.origin, s.originSeq)))
    requires s.StartInstance? && PublisherId(s.raw) !in c.pending && !Full(c.pending) ==>
               ok(RegisterDraining(c.(period := Admission.Period(Some(s.p), Some(s.q))),
                   NewInstance(self, s.raw, s.p, s.q, s.txs)))
    ensures ok(Next(c, self, s))
  {
  }

  /** Case analysis of a section that may change many XTs but registers and removes none. */
  lemma BroadcastCases(c: Coord, self: ChainId, s: Step, ok: Coord -> bool)
    requires s.MailboxMessage? || s.StartPeriod? || s.Rollback? || s.ConfirmIncluded?
    requires s.MailboxMessage? ==> ok(MailboxSection(c, s.msg))
    requires s.StartPeriod? ==> ok(StartPeriodSection(c, s.p))
    requires s.Rollback? ==> ok(RollbackSection(c))
    requires s.ConfirmIncluded? ==> ok(ConfirmSection(c, s.ids))
    ensures ok(Next(c, self, s))
  {
  }

  lemma RemovalCases(c: Coord, self: ChainId, s: Step, ok: Coord -> bool)
    requires s.RemovePending? || s.Cleanup?
    requires s.RemovePending? ==> ok(RemoveSection(c, s.id))
    requires s.Cleanup? ==> ok(CleanupSection(c, s.aged))
    ensures ok(Next(c, self, s))
  {
  }

  lemma TouchCases(c: Coord, self: ChainId, s: Step, ok: Coord -> bool)
    requires TouchesOne(s)
    requires s.id !in c.pending ==> ok(c)
    requires s.id in c.pending ==> ok(c.(pending := c.pending[s.id := Touch(c.pending[s.id], self, s)]))
    ensures ok(Next(c, self, s))
  {
  }

  lemma TouchedState(c: Coord, self: ChainId, s: Step)
    requires TouchesOne(s) && s.id in c.pending
    ensures Next(c, self, s) == c.(pending := c.pending[s.id := Touch(c.pending[s.id], self, s)])
  {
  }
}
