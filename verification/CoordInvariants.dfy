/** What every critical section of the coordinator keeps. */
module CoordInvariants {
  import opened Prelude
  import opened Matching
  import opened Xt
  import opened CoordState
  import Admission

  /**
    The names a deployment uses: `own` ids are their own raw bytes, as standalone
    XTs are; `published` raw bytes are known by their hex form, as instances are.
   */
  datatype Naming = Naming(own: iset<Id>, published: iset<bytes>)

  /** The two kinds of names do not meet, so neither takes an id or raw bytes from the other. */
  ghost predicate Apart(sch: Naming) {
    forall raw :: raw in sch.published ==> raw !in sch.own && PublisherId(raw) !in sch.own
  }

  // ---------- Invariants ----------

  /** Every XT is kept under its own id. */
  ghost predicate Keyed(pending: map<Id, PendingXt>) {
    forall id :: id in pending ==> pending[id].id == id
  }

  /** `mailbox_index` is exactly the inverse of the raw ids in `pending`. */
  ghost predicate Indexed(pending: map<Id, PendingXt>, index: map<bytes, Id>) {
    && Keyed(pending)
    && (forall id :: id in pending ==> pending[id].rawId in index && index[pending[id].rawId] == id)
    && (forall raw :: raw in index ==> index[raw] in pending && pending[index[raw]].rawId == raw)
  }

  ghost predicate NameFits(sch: Naming, xt: PendingXt) {
    || (xt.rawId == xt.id && xt.id in sch.own)
    || (xt.id == PublisherId(xt.rawId) && xt.rawId in sch.published)
  }

  ghost predicate Named(pending: map<Id, PendingXt>, sch: Naming) {
    forall id :: id in pending ==> NameFits(sch, pending[id])
  }

  ghost predicate FingerprintsPending(pending: map<Id, PendingXt>, fingerprints: map<Fingerprint, Id>) {
    forall fp :: fp in fingerprints ==> fingerprints[fp] in pending
  }

  ghost predicate BufferCapped(buffer: map<bytes, seq<Message>>) {
    && |buffer| <= MAILBOX_BUFFER_MAX_KEYS
    && forall raw :: raw in buffer ==> 0 < |buffer[raw]| <= MAILBOX_BUFFER_MAX_PER_KEY
  }

  ghost predicate Coherent(c: Coord, sch: Naming) {
    && Indexed(c.pending, c.index) && Named(c.pending, sch) && FingerprintsPending(c.pending, c.fingerprints)
    && |Undecided(c.pending)| <= MAX_PENDING_XTS && BufferCapped(c.buffer)
  }

  /** The step registers only under names of its kind. */
  ghost predicate Allowed(sch: Naming, self: ChainId, s: Step) {
    && (s.Submit? ==> forall k: nat :: StandaloneId(self, k) in sch.own)
    && (s.ForwardedXt? ==> s.id in sch.own)
    && (s.StartInstance? ==> s.raw in sch.published)
  }

  // ---------- Ids ----------

  lemma InsertKeyed(p: map<Id, PendingXt>, xt: PendingXt)
    requires Keyed(p)
    ensures Keyed(p[xt.id := xt])
  {
  }

  lemma RegistrationKeyed(c: Coord, self: ChainId, s: Step)
    requires Keyed(c.pending) && (s.Submit? || s.ForwardedXt? || s.StartInstance?)
    ensures Keyed(Next(c, self, s).pending)
  {
    RegistrationCases(c, self, s, (x: Coord) => Keyed(x.pending));
  }

  lemma TouchKeyed(c: Coord, self: ChainId, s: Step)
    requires Keyed(c.pending) && TouchesOne(s)
    ensures Keyed(Next(c, self, s).pending)
  {
    if s.id in c.pending {
      TouchContinues(c.pending[s.id], self, s);
      InsertKeyed(c.pending, Touch(c.pending[s.id], self, s));
    }
    TouchCases(c, self, s, (x: Coord) => Keyed(x.pending));
  }

  /** Whatever the steps are, every XT stays under its own id. */
  lemma NextKeyed(c: Coord, self: ChainId, s: Step)
    requires Keyed(c.pending)
    ensures Keyed(Next(c, self, s).pending)
  {
    if s.Submit? || s.ForwardedXt? || s.StartInstance? { RegistrationKeyed(c, self, s); }
    else if TouchesOne(s) { TouchKeyed(c, self, s); }
    else if s.RemovePending? || s.Cleanup? { RemovalCases(c, self, s, (x: Coord) => Keyed(x.pending)); }
    else { BroadcastCases(c, self, s, (x: Coord) => Keyed(x.pending)); }
  }

  // ---------- Steps that keep the set of XTs ----------

  /** The identity of an XT stays, and a decision is never undone. */
  ghost predicate Continues(xt: PendingXt, x: PendingXt) {
    && x.id == xt.id && x.rawId == xt.rawId && x.rawTxs == xt.rawTxs
    && x.period == xt.period && x.confirmed == xt.confirmed
    && (xt.decision.Some? ==> x.decision == xt.decision)
  }

  /** What a handler that names one XT leaves alone. */
  lemma TouchContinues(xt: PendingXt, self: ChainId, s: Step)
    requires TouchesOne(s)
    ensures Continues(xt, Touch(xt, self, s))
  {
    if s.RecordSimulation? {
      RecordingTouchesNothingElse(xt, s.deps);
      OutboundTouchesNothingElse(RecordDependencies(xt, s.deps), s.outbound);
    }
  }

  ghost predicate SameXt(x: PendingXt, y: PendingXt) {
    y.id == x.id && y.rawId == x.rawId && (y.decision.None? ==> x.decision.None?)
  }

  /** `q` has the same XTs as `p`, and none of them became undecided. */
  ghost predicate SameXts(p: map<Id, PendingXt>, q: map<Id, PendingXt>) {
    q.Keys == p.Keys && forall id :: id in p ==> SameXt(p[id], q[id])
  }

  lemma SameXtsCoherent(c: Coord, sch: Naming, q: map<Id, PendingXt>)
    requires Coherent(c, sch) && SameXts(c.pending, q)
    ensures Coherent(c.(pending := q), sch)
  {
    SubsetCount(Undecided(q), Undecided(c.pending));
  }

  lemma PutCoherent(c: Coord, sch: Naming, id: Id, x: PendingXt)
    requires Coherent(c, sch) && id in c.pending && SameXt(c.pending[id], x)
    ensures Coherent(c.(pending := c.pending[id := x]), sch)
  {
    SameXtsCoherent(c, sch, c.pending[id := x]);
  }

  lemma TouchCoherent(c: Coord, self: ChainId, sch: Naming, s: Step)
    requires Coherent(c, sch) && TouchesOne(s)
    ensures Coherent(Next(c, self, s), sch)
  {
    if s.id in c.pending {
      TouchContinues(c.pending[s.id], self, s);
      PutCoherent(c, sch, s.id, Touch(c.pending[s.id], self, s));
    }
    TouchCases(c, self, s, x => Coherent(x, sch));
  }

  lemma ClosingKeepsCoherent(c: Coord, sch: Naming, period: Admission.Period)
    requires Coherent(c, sch)
    ensures Coherent(c.(period := period), sch) && Coherent(c.(period := period, buffer := map[]), sch)
  {
  }

  lemma StartPeriodCoherent(c: Coord, sch: Naming, p: u64)
    requires Coherent(c, sch)
    ensures Coherent(StartPeriodSection(c, p), sch)
  {
    var q := StartPeriodSection(c, p).pending;
    SameXtsCoherent(c, sch, q);
    ClosingKeepsCoherent(c.(pending := q), sch, Admission.Open(p));
  }

  lemma RollbackCoherent(c: Coord, sch: Naming)
    requires Coherent(c, sch)
    ensures Coherent(RollbackSection(c), sch)
  {
    var q := RollbackSection(c).pending;
    SameXtsCoherent(c, sch, q);
    ClosingKeepsCoherent(c.(pending := q), sch, Admission.CLOSED);
  }

  lemma ConfirmCoherent(c: Coord, sch: Naming, ids: set<Id>)
    requires Coherent(c, sch)
    ensures Coherent(ConfirmSection(c, ids), sch)
  {
    SameXtsCoherent(c, sch, ConfirmSection(c, ids).pending);
  }

  lemma MapPutCount<K, V>(m: map<K, V>, k: K, v: V)
    ensures |m[k := v]| == |m| + if k in m then 0 else 1
  {
    assert m[k := v].Keys == m.Keys + {k};
  }

  lemma OrphanCapped(c: Coord, m: Message)
    requires BufferCapped(c.buffer)
    ensures BufferCapped(BufferOrphan(c, m).buffer)
  {
    MapPutCount(c.buffer, m.instanceId, Bucket(c.buffer, m.instanceId) + [m]);
  }

  lemma MailboxCoherent(c: Coord, sch: Naming, m: Message)
    requires Coherent(c, sch)
    ensures Coherent(MailboxSection(c, m), sch)
  {
    if m.instanceId in c.index {
      var xt := c.pending[c.index[m.instanceId]];
      PutCoherent(c, sch, c.index[m.instanceId], xt.(box := xt.box.(pending := xt.box.pending + [m])));
    } else {
      OrphanCapped(c, m);
    }
  }

  // ---------- Steps that add an XT ----------

  /** A raw id is indexed only under the name it has. */
  lemma RawIdNamesId(p: map<Id, PendingXt>, index: map<bytes, Id>, sch: Naming, xt: PendingXt)
    requires Apart(sch) && Indexed(p, index) && Named(p, sch) && NameFits(sch, xt)
    ensures xt.rawId in index ==> index[xt.rawId] == xt.id
    ensures xt.id in p ==> p[xt.id].rawId == xt.rawId
  {
    if xt.id in p {
      assert NameFits(sch, p[xt.id]);
      PublisherIdInjective(p[xt.id].rawId, xt.rawId);
    }
    if xt.rawId in index { assert NameFits(sch, p[index[xt.rawId]]); }
  }

  lemma InsertIndexed(p: map<Id, PendingXt>, index: map<bytes, Id>, xt: PendingXt)
    requires Indexed(p, index)
    requires xt.rawId in index ==> index[xt.rawId] == xt.id
    requires xt.id in p ==> p[xt.id].rawId == xt.rawId
    ensures Indexed(p[xt.id := xt], index[xt.rawId := xt.id])
  {
  }

  lemma InsertUndecided(p: map<Id, PendingXt>, xt: PendingXt)
    requires !Full(p)
    ensures |Undecided(p[xt.id := xt])| <= MAX_PENDING_XTS
  {
    SubsetCount(Undecided(p[xt.id := xt]), Undecided(p) + {xt.id});
  }

  lemma InsertCoherent(p: map<Id, PendingXt>, index: map<bytes, Id>, sch: Naming, xt: PendingXt)
    requires Apart(sch) && Indexed(p, index) && Named(p, sch) && !Full(p) && NameFits(sch, xt)
    ensures Indexed(p[xt.id := xt], index[xt.rawId := xt.id]) && Named(p[xt.id := xt], sch)
    ensures |Undecided(p[xt.id := xt])| <= MAX_PENDING_XTS
  {
    RawIdNamesId(p, index, sch, xt);
    InsertIndexed(p, index, xt);
    InsertUndecided(p, xt);
  }

  lemma ShrinkCapped(buffer: map<bytes, seq<Message>>, smaller: map<bytes, seq<Message>>)
    requires BufferCapped(buffer) && smaller.Keys <= buffer.Keys
    requires forall raw :: raw in smaller ==> smaller[raw] == buffer[raw]
    ensures BufferCapped(smaller)
  {
    SubsetCount(smaller.Keys, buffer.Keys);
  }

  lemma RegisterCoherent(c: Coord, sch: Naming, xt: PendingXt)
    requires Apart(sch) && Coherent(c, sch) && !Full(c.pending) && NameFits(sch, xt)
    ensures Coherent(RegisterDraining(c, xt), sch)
  {
    var x := xt.(box := xt.box.(pending := xt.box.pending + Bucket(c.buffer, xt.rawId)));
    InsertCoherent(c.pending, c.index, sch, x);
    ShrinkCapped(c.buffer, c.buffer - {xt.rawId});
  }

  lemma RegisterSubmittedCoherent(c: Coord, sch: Naming, xt: PendingXt, fp: Fingerprint)
    requires Apart(sch) && Coherent(c, sch) && !Full(c.pending) && NameFits(sch, xt)
    ensures Coherent(RegisterSubmitted(c, xt, fp), sch)
  {
    InsertCoherent(c.pending, c.index, sch, xt);
  }

  lemma RegistrationCoherent(c: Coord, self: ChainId, sch: Naming, s: Step)
    requires Apart(sch) && Coherent(c, sch) && Allowed(sch, self, s)
    requires s.Submit? || s.ForwardedXt? || s.StartInstance?
    ensures Coherent(Next(c, self, s), sch)
  {
    if !Full(c.pending) {
      match s
      case Submit(fp, txs) =>
        var xt := NewSubmitted(self, StandaloneId(self, c.originSeq + 1), c.originSeq + 1, txs);
        RegisterSubmittedCoherent(c.(originSeq := c.originSeq + 1), sch, xt, fp);
      case ForwardedXt(id, txs, origin, originSeq) =>
        RegisterCoherent(c, sch, NewForwarded(self, id, txs, origin, originSeq));
      case StartInstance(raw, p, q, txs) =>
        RegisterCoherent(c.(period := Admission.Period(Some(p), Some(q))), sch, NewInstance(self, raw, p, q, txs));
    }
    RegistrationCases(c, self, s, x => Coherent(x, sch));
  }

  // ---------- Steps that drop XTs ----------

  lemma DropIndexed(p: map<Id, PendingXt>, index: map<bytes, Id>, gone: set<Id>)
    requires Indexed(p, index) && gone <= p.Keys
    ensures Indexed(p - gone, index - RawIds(p, gone))
  {
  }

  lemma DropCoherent(p: map<Id, PendingXt>, index: map<bytes, Id>, sch: Naming, gone: set<Id>)
    requires Indexed(p, index) && Named(p, sch) && gone <= p.Keys
    ensures Indexed(p - gone, index - RawIds(p, gone)) && Named(p - gone, sch)
    ensures |Undecided(p - gone)| <= |Undecided(p)|
  {
    DropIndexed(p, index, gone);
    SubsetCount(Undecided(p - gone), Undecided(p));
  }

  lemma RemoveCoherent(c: Coord, sch: Naming, id: Id)
    requires Coherent(c, sch)
    ensures Coherent(RemoveSection(c, id), sch)
  {
    if id in c.pending {
      DropCoherent(c.pending, c.index, sch, {id});
      assert RawIds(c.pending, {id}) == {c.pending[id].rawId};
    }
  }

  lemma CleanupCoherent(c: Coord, sch: Naming, aged: set<Id>)
    requires Coherent(c, sch)
    ensures Coherent(CleanupSection(c, aged), sch)
  {
    ShrinkCapped(c.buffer, CleanupSection(c, aged).buffer);
    DropCoherent(c.pending, c.index, sch, Expired(c.pending, aged));
  }

  lemma BroadcastCoherent(c: Coord, self: ChainId, sch: Naming, s: Step)
    requires Coherent(c, sch) && (s.MailboxMessage? || s.StartPeriod? || s.Rollback? || s.ConfirmIncluded?)
    ensures Coherent(Next(c, self, s), sch)
  {
    match s {
      case MailboxMessage(m) => MailboxCoherent(c, sch, m);
      case StartPeriod(p) => StartPeriodCoherent(c, sch, p);
      case Rollback => RollbackCoherent(c, sch);
      case ConfirmIncluded(ids) => ConfirmCoherent(c, sch, ids);
    }
    BroadcastCases(c, self, s, x => Coherent(x, sch));
  }

  lemma RemovalCoherent(c: Coord, self: ChainId, sch: Naming, s: Step)
    requires Coherent(c, sch) && (s.RemovePending? || s.Cleanup?)
    ensures Coherent(Next(c, self, s), sch)
  {
    if s.RemovePending? { RemoveCoherent(c, sch, s.id); } else { CleanupCoherent(c, sch, s.aged); }
    RemovalCases(c, self, s, x => Coherent(x, sch));
  }

  lemma NextCoherent(c: Coord, self: ChainId, sch: Naming, s: Step)
    requires Apart(sch) && Coherent(c, sch) && Allowed(sch, self, s)
    ensures Coherent(Next(c, self, s), sch)
  {
    if s.Submit? || s.ForwardedXt? || s.StartInstance? { RegistrationCoherent(c, self, sch, s); }
    else if s.RemovePending? || s.Cleanup? { RemovalCoherent(c, self, sch, s); }
    else if TouchesOne(s) { TouchCoherent(c, self, sch, s); }
    else { BroadcastCoherent(c, self, sch, s); }
  }

  // ---------- Whole runs ----------

  ghost function After(self: ChainId, ss: seq<Step>): Coord {
    if ss == [] then INITIAL else Next(After(self, ss[..|ss| - 1]), self, ss[|ss| - 1])
  }

  lemma AfterNext(self: ChainId, ss: seq<Step>, k: nat)
    requires k < |ss|
    ensures After(self, ss[..k + 1]) == Next(After(self, ss[..k]), self, ss[k])
  {
    assert ss[..k + 1][..k] == ss[..k];
  }

  /** Whatever the steps are, every XT of a reachable state is kept under its own id. */
  lemma {:induction false} ReachableIsKeyed(self: ChainId, ss: seq<Step>)
    ensures Keyed(After(self, ss).pending)
  {
    if ss != [] {
      ReachableIsKeyed(self, ss[..|ss| - 1]);
      NextKeyed(After(self, ss[..|ss| - 1]), self, ss[|ss| - 1]);
    }
  }

  ghost predicate AllowedRun(sch: Naming, self: ChainId, ss: seq<Step>) {
    Apart(sch) && forall k :: 0 <= k < |ss| ==> Allowed(sch, self, ss[k])
  }

  /**
    In every state reachable with names that are apart: the index inverts the raw
    ids, fingerprints point at pending XTs, at most 100 XTs are undecided and both
    buffer caps hold.
   */
  lemma {:induction false} ReachableIsCoherent(self: ChainId, sch: Naming, ss: seq<Step>)
    requires AllowedRun(sch, self, ss)
    ensures Coherent(After(self, ss), sch)
  {
    if ss != [] {
      ReachableIsCoherent(self, sch, ss[..|ss| - 1]);
      NextCoherent(After(self, ss[..|ss| - 1]), self, sch, ss[|ss| - 1]);
    }
  }

  // ---------- Minted ids ----------

  /** `id` is one this sidecar mints for its own submissions. */
  ghost predicate OwnId(self: ChainId, id: Id) {
    exists k: nat :: id == StandaloneId(self, k)
  }

  /** No id this sidecar has yet to mint is in use. */
  ghost predicate UnmintedUnused(c: Coord, self: ChainId) {
    forall k: nat :: k > c.originSeq ==> StandaloneId(self, k) !in c.pending
  }

  lemma MintingKeeps(c: Coord, self: ChainId, fp: Fingerprint, txs: map<ChainId, seq<Tx>>)
    requires UnmintedUnused(c, self)
    ensures UnmintedUnused(SubmitSection(c, self, fp, txs), self)
  {
    forall k: nat | k > c.originSeq + 1 ensures StandaloneId(self, k) != StandaloneId(self, c.originSeq + 1) {
      if StandaloneId(self, k) == StandaloneId(self, c.originSeq + 1) {
        StandaloneIdInjective(self, k, self, c.originSeq + 1);
      }
    }
  }

  lemma NoOwnIdKeeps(c: Coord, self: ChainId, c': Coord)
    requires UnmintedUnused(c, self) && c'.originSeq == c.originSeq
    requires forall id :: id in c'.pending && id !in c.pending ==> !OwnId(self, id)
    ensures UnmintedUnused(c', self)
  {
  }

  /** The step does not let a peer register an id of this sidecar's own series. */
  ghost predicate RespectsMinting(self: ChainId, s: Step) {
    s.ForwardedXt? ==> !OwnId(self, s.id)
  }

  /** The `x` of a minted id is not a hex digit. */
  lemma HexIsNotMinted(chain: ChainId, k: nat, raw: bytes)
    ensures StandaloneId(chain, k) != PublisherId(raw)
  {
    if raw != [] { assert StandaloneId(chain, k)[0] != PublisherId(raw)[0]; }
  }

  /** Some sidecar mints `id`. */
  ghost predicate Minted(id: Id) {
    exists chain: ChainId, k: nat :: id == StandaloneId(chain, k)
  }

  /** Minted ids are apart from all publisher-assigned bytes that do not look like one. */
  lemma MintedIsApart()
    ensures Apart(Naming(iset id | Minted(id), iset raw | !Minted(raw)))
  {
    forall raw | !Minted(raw) ensures !Minted(PublisherId(raw)) {
      if Minted(PublisherId(raw)) {
        var chain: ChainId, k: nat :| PublisherId(raw) == StandaloneId(chain, k);
        HexIsNotMinted(chain, k, raw);
      }
    }
  }

  /** A peer that forwards an id it minted for its own chain respects this sidecar's series. */
  lemma PeersRespectMinting(self: ChainId, s: Step)
    requires s.ForwardedXt? && s.origin != self && s.id == StandaloneId(s.origin, s.originSeq)
    ensures RespectsMinting(self, s)
  {
    if OwnId(self, s.id) {
      var k: nat :| s.id == StandaloneId(self, k);
      StandaloneIdInjective(s.origin, s.originSeq, self, k);
      assert false;
    }
  }

  lemma InstanceNotOwn(self: ChainId, raw: bytes)
    ensures !OwnId(self, PublisherId(raw))
  {
    forall k: nat ensures PublisherId(raw) != StandaloneId(self, k) { HexIsNotMinted(self, k, raw); }
  }

  lemma MintsFresh(c: Coord, self: ChainId, s: Step)
    requires UnmintedUnused(c, self) && RespectsMinting(self, s)
    ensures UnmintedUnused(Next(c, self, s), self)
  {
    if s.Submit? {
      MintingKeeps(c, self, s.fp, s.txs);
    } else if s.StartInstance? {
      InstanceNotOwn(self, s.raw);
      NoOwnIdKeeps(c, self, Next(c, self, s));
    } else {
      NoOwnIdKeeps(c, self, Next(c, self, s));
    }
  }

  /** In every run, the id a submission mints is not the id of a pending XT. */
  lemma {:induction false} MintedIdsAreFresh(self: ChainId, ss: seq<Step>)
    requires forall k :: 0 <= k < |ss| ==> RespectsMinting(self, ss[k])
    ensures UnmintedUnused(After(self, ss), self)
    ensures StandaloneId(self, After(self, ss).originSeq + 1) !in After(self, ss).pending
  {
    if ss != [] {
      MintedIdsAreFresh(self, ss[..|ss| - 1]);
      MintsFresh(After(self, ss[..|ss| - 1]), self, ss[|ss| - 1]);
    }
  }
}
