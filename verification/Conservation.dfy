/** Where every received mailbox message is, over whole runs of the coordinator. */
module Conservation {
  import opened Prelude
  import opened Matching
  import opened Fulfilment
  import opened Xt
  import opened CoordState
  import opened CoordInvariants
  import opened Decisions
  import opened MailboxIndex

  const NO_BOX: Box := Box([], {}, [])

  /** The mailbox of the XT registered under `raw`, empty when there is none. */
  function BoxAt(pending: map<Id, PendingXt>, index: map<bytes, Id>, raw: bytes): Box {
    if raw in index && index[raw] in pending then pending[index[raw]].box else NO_BOX
  }

  predicate PassFor(c: Coord, s: Step, raw: bytes) {
    s.FulfilPass? && s.id in c.pending && raw in c.index && c.index[raw] == s.id
  }

  /** Messages for `raw` that a run received. */
  ghost function Received(ss: seq<Step>, raw: bytes): multiset<Message> {
    if ss == [] then multiset{}
    else
      var before, s := Received(ss[..|ss| - 1], raw), ss[|ss| - 1];
      if s.MailboxMessage? && s.msg.instanceId == raw then before + multiset{s.msg} else before
  }

  /** Messages of the XT at `raw` that fulfilment passes used up, in order. */
  ghost function UsedUp(self: ChainId, ss: seq<Step>, raw: bytes): seq<Message> {
    if ss == [] then []
    else
      var before, c, s := UsedUp(self, ss[..|ss| - 1], raw), After(self, ss[..|ss| - 1]), ss[|ss| - 1];
      if PassFor(c, s, raw) then before + Consumed(BoxAt(c.pending, c.index, raw), s.deps) else before
  }

  /** What loses a message on arrival: no XT is registered for it and the buffer refuses it. */
  predicate Drops(c: Coord, m: Message) {
    m.instanceId !in c.index && BufferRefuses(c, m)
  }

  /** No XT is dropped, and no arriving message is lost to a full buffer. */
  predicate DropsNothing(c: Coord, s: Step) {
    && !s.RemovePending? && !s.Cleanup? && !s.Rollback?
    && (s.MailboxMessage? ==> !Drops(c, s.msg))
  }

  /** Nothing is dropped, and what is registered has a new id and a new raw id. */
  predicate KeepsAll(c: Coord, self: ChainId, s: Step) {
    DropsNothing(c, s) && Fresh(c, self, s)
  }

  ghost predicate Lossless(self: ChainId, ss: seq<Step>) {
    forall k :: 0 <= k < |ss| ==> KeepsAll(After(self, ss[..k]), self, ss[k])
  }

  /** The columns balance, and each used-up message fulfilled the entry at its position. */
  ghost predicate Balanced(bucket: seq<Message>, box: Box, received: multiset<Message>, used: seq<Message>) {
    && received == multiset(bucket) + multiset(box.pending) + multiset(used)
    && |used| == |box.fulfilled|
    && forall j :: 0 <= j < |used| ==> ServedBy(box.fulfilled[j], used[j])
  }

  // ---------- What one step does to the ledger of `raw` ----------

  lemma PassServed(b: Box, deps: seq<Dependency>, used: seq<Message>)
    requires |used| == |b.fulfilled| && forall j :: 0 <= j < |used| ==> ServedBy(b.fulfilled[j], used[j])
    ensures var r, all := Fulfil(b, deps), used + Consumed(b, deps);
            |all| == |r.fulfilled| && forall j :: 0 <= j < |all| ==> ServedBy(r.fulfilled[j], all[j])
  {
    PassEntries(b, deps);
    var r, more := Fulfil(b, deps), Consumed(b, deps);
    assert r.fulfilled == b.fulfilled + Entries(b, deps);
    forall j | 0 <= j < |used + more| ensures ServedBy(r.fulfilled[j], (used + more)[j]) {
      if j >= |used| { assert ServedBy(Entries(b, deps)[j - |used|], more[j - |used|]); }
    }
  }

  lemma PassBalanced(
      bucket: seq<Message>, b: Box, deps: seq<Dependency>, received: multiset<Message>, used: seq<Message>)
    requires Balanced(bucket, b, received, used)
    ensures Balanced(bucket, Fulfil(b, deps), received, used + Consumed(b, deps))
  {
    PassServed(b, deps, used);
    PassConserves(b, deps);
    assert multiset(used + Consumed(b, deps)) == multiset(used) + multiset(Consumed(b, deps));
  }

  lemma TouchKeepsBox(xt: PendingXt, self: ChainId, s: Step)
    requires TouchesOne(s) && !s.FulfilPass?
    ensures Touch(xt, self, s).box == xt.box
  {
    if s.RecordSimulation? {
      RecordingTouchesNothingElse(xt, s.deps);
      OutboundTouchesNothingElse(RecordDependencies(xt, s.deps), s.outbound);
    }
  }

  /** Replacing the XT `id` changes the ledger of its own raw id only. */
  lemma PutLedger(pending: map<Id, PendingXt>, index: map<bytes, Id>, id: Id, x: PendingXt, raw: bytes)
    requires id in pending
    ensures BoxAt(pending[id := x], index, raw) == if raw in index && index[raw] == id then x.box
            else BoxAt(pending, index, raw)
  {
  }

  lemma TouchLedger(c: Coord, self: ChainId, s: Step, raw: bytes)
    requires TouchesOne(s)
    ensures var c' := Next(c, self, s); var b := BoxAt(c.pending, c.index, raw);
            && c'.buffer == c.buffer
            && BoxAt(c'.pending, c'.index, raw) == if PassFor(c, s, raw) then Fulfil(b, s.deps) else b
  {
    if s.id in c.pending {
      var x := Touch(c.pending[s.id], self, s);
      PutLedger(c.pending, c.index, s.id, x, raw);
      assert Next(c, self, s) == c.(pending := c.pending[s.id := x]);
      if !s.FulfilPass? { TouchKeepsBox(c.pending[s.id], self, s); }
    }
  }

  lemma ArrivalLedger(c: Coord, m: Message, raw: bytes)
    requires Indexed(c.pending, c.index) && !Drops(c, m)
    ensures var c' := MailboxSection(c, m);
            var b := BoxAt(c.pending, c.index, raw);
            var b' := BoxAt(c'.pending, c'.index, raw);
            if m.instanceId != raw then Bucket(c'.buffer, raw) == Bucket(c.buffer, raw) && b' == b
            else if raw in c.index then
              Bucket(c'.buffer, raw) == Bucket(c.buffer, raw) && b' == b.(pending := b.pending + [m])
            else Bucket(c'.buffer, raw) == Bucket(c.buffer, raw) + [m] && b' == b
  {
  }

  /** Registration moves the bucket of its raw id into the new XT's mailbox and touches no other ledger. */
  lemma RegistrationLedger(c: Coord, xt: PendingXt, raw: bytes)
    requires Indexed(c.pending, c.index) && xt.id !in c.pending && xt.rawId !in c.index && xt.box == NO_BOX
    ensures var c' := RegisterDraining(c, xt);
            var b, b' := BoxAt(c.pending, c.index, raw), BoxAt(c'.pending, c'.index, raw);
            if raw == xt.rawId then Bucket(c'.buffer, raw) == [] && b' == NO_BOX.(pending := Bucket(c.buffer, raw))
            else Bucket(c'.buffer, raw) == Bucket(c.buffer, raw) && b' == b
  {
  }

  lemma SubmissionLedger(c: Coord, xt: PendingXt, fp: Fingerprint, raw: bytes)
    requires Indexed(c.pending, c.index) && xt.id !in c.pending && xt.rawId !in c.index && xt.box == NO_BOX
    ensures var c' := RegisterSubmitted(c, xt, fp);
            c'.buffer == c.buffer && BoxAt(c'.pending, c'.index, raw) == BoxAt(c.pending, c.index, raw)
  {
  }

  lemma BroadcastLedger(c: Coord, self: ChainId, s: Step, raw: bytes)
    requires s.StartPeriod? || s.ConfirmIncluded?
    ensures var c' := Next(c, self, s);
            c'.buffer == c.buffer && BoxAt(c'.pending, c'.index, raw) == BoxAt(c.pending, c.index, raw)
  {
  }

  // ---------- Balance ----------

  ghost predicate LedgerOk(c: Coord, raw: bytes, received: multiset<Message>, used: seq<Message>) {
    Balanced(Bucket(c.buffer, raw), BoxAt(c.pending, c.index, raw), received, used)
  }

  lemma RegistrationBalanced(
      c: Coord, self: ChainId, s: Step, raw: bytes, received: multiset<Message>, used: seq<Message>)
    requires Indexed(c.pending, c.index) && Fresh(c, self, s) && (s.Submit? || s.ForwardedXt? || s.StartInstance?)
    requires LedgerOk(c, raw, received, used)
    ensures LedgerOk(Next(c, self, s), raw, received, used)
  {
    var r := Registering(c, self, s);
    RegistrationState(c, self, s);
    if r.Some? && s.Submit? { SubmissionLedger(c.(originSeq := c.originSeq + 1), r.value, s.fp, raw); }
    if r.Some? && !s.Submit? { RegistrationLedger(c.(period := Next(c, self, s).period), r.value, raw); }
  }

  lemma StepBalanced(
      c: Coord, self: ChainId, s: Step, raw: bytes, received: multiset<Message>, used: seq<Message>)
    requires Indexed(c.pending, c.index) && KeepsAll(c, self, s)
    requires LedgerOk(c, raw, received, used)
    ensures LedgerOk(Next(c, self, s), raw,
                     if s.MailboxMessage? && s.msg.instanceId == raw then received + multiset{s.msg} else received,
                     if PassFor(c, s, raw) then used + Consumed(BoxAt(c.pending, c.index, raw), s.deps) else used)
  {
    if s.Submit? || s.ForwardedXt? || s.StartInstance? { RegistrationBalanced(c, self, s, raw, received, used); }
    else if TouchesOne(s) { TouchBalanced(c, self, s, raw, received, used); }
    else if s.MailboxMessage? { ArrivalBalanced(c, s.msg, raw, received, used); }
    else { BroadcastLedger(c, self, s, raw); }
  }

  lemma ArrivalBalanced(c: Coord, m: Message, raw: bytes, received: multiset<Message>, used: seq<Message>)
    requires Indexed(c.pending, c.index) && !Drops(c, m) && LedgerOk(c, raw, received, used)
    ensures LedgerOk(MailboxSection(c, m), raw, if m.instanceId == raw then received + multiset{m} else received, used)
  {
    ArrivalLedger(c, m, raw);
  }

  lemma TouchBalanced(c: Coord, self: ChainId, s: Step, raw: bytes, received: multiset<Message>, used: seq<Message>)
    requires TouchesOne(s) && LedgerOk(c, raw, received, used)
    ensures LedgerOk(Next(c, self, s), raw, received,
                     if PassFor(c, s, raw) then used + Consumed(BoxAt(c.pending, c.index, raw), s.deps) else used)
  {
    TouchLedger(c, self, s, raw);
    if s.FulfilPass? { PassBalanced(Bucket(c.buffer, raw), BoxAt(c.pending, c.index, raw), s.deps, received, used); }
  }

  lemma LosslessPrefix(self: ChainId, ss: seq<Step>, n: nat)
    requires Lossless(self, ss) && n <= |ss|
    ensures Lossless(self, ss[..n])
  {
    forall k | 0 <= k < n ensures KeepsAll(After(self, ss[..n][..k]), self, ss[..n][k]) {
      assert ss[..n][..k] == ss[..k];
    }
  }

  lemma FreshKeepsIndex(c: Coord, self: ChainId, s: Step)
    requires Indexed(c.pending, c.index) && Fresh(c, self, s)
    ensures Indexed(Next(c, self, s).pending, Next(c, self, s).index)
  {
    IndexSurvivesExactlyWhen(c, self, s);
  }

  /** The ledger of `raw` balances after the run, and the index is exact. */
  ghost predicate Accounted(self: ChainId, ss: seq<Step>, raw: bytes) {
    && LedgerOk(After(self, ss), raw, Received(ss, raw), UsedUp(self, ss, raw))
    && Indexed(After(self, ss).pending, After(self, ss).index)
  }

  lemma NothingToAccount(self: ChainId, raw: bytes)
    ensures Accounted(self, [], raw)
  {
  }

  lemma LastStepBalanced(self: ChainId, ss: seq<Step>, raw: bytes, c: Coord)
    requires ss != [] && Lossless(self, ss) && c == After(self, ss[..|ss| - 1])
    requires Accounted(self, ss[..|ss| - 1], raw)
    ensures Accounted(self, ss, raw)
  {
    var pre, s := ss[..|ss| - 1], ss[|ss| - 1];
    assert KeepsAll(c, self, s);
    assert After(self, ss) == Next(c, self, s);
    FreshKeepsIndex(c, self, s);
    StepBalanced(c, self, s, raw, Received(pre, raw), UsedUp(self, pre, raw));
  }

  /**
    Over every run without removal, cleanup, rollback or a full buffer in which
    names are new when they are registered, by whatever mix of submissions, peers
    and publisher: each message received for an instance is in exactly one place,
    the orphan buffer, its XT's mailbox, or used up by the fulfilled dependency it
    matches. Whether the XT or the message arrived first plays no part.
   */
  lemma {:induction false} MessagesConserved(self: ChainId, ss: seq<Step>, raw: bytes)
    requires Lossless(self, ss)
    ensures Accounted(self, ss, raw)
  {
    if ss == [] {
      NothingToAccount(self, raw);
    } else {
      LosslessPrefix(self, ss, |ss| - 1);
      MessagesConserved(self, ss[..|ss| - 1], raw);
      LastStepBalanced(self, ss, raw, After(self, ss[..|ss| - 1]));
    }
  }

  /** With names that are apart it is enough that nothing is dropped and peers leave this sidecar's ids alone. */
  lemma ApartRunsConserve(self: ChainId, sch: Naming, ss: seq<Step>, raw: bytes)
    requires AllowedRun(sch, self, ss)
    requires forall k :: 0 <= k < |ss| ==> DropsNothing(After(self, ss[..k]), ss[k]) && RespectsMinting(self, ss[k])
    ensures Accounted(self, ss, raw)
  {
    forall k | 0 <= k < |ss| ensures KeepsAll(After(self, ss[..k]), self, ss[k]) {
      ReachableIsCoherent(self, sch, ss[..k]);
      MintedIdsAreFresh(self, ss[..k]);
      ApartIsFresh(After(self, ss[..k]), self, sch, ss[k]);
    }
    MessagesConserved(self, ss, raw);
  }

  // ---------- Messages a submission leaves behind ----------

  /** Messages lie in the buffer although their XT is registered. */
  predicate Overdue(c: Coord, raw: bytes) {
    raw in c.buffer && raw in c.index
  }

  ghost predicate NoneOverdue(c: Coord) {
    c.buffer.Keys !! c.index.Keys
  }

  /** The step is a submission that will be registered under an id for which messages are buffered. */
  predicate LeavesBehind(c: Coord, self: ChainId, s: Step) {
    && s.Submit? && !(s.fp in c.fingerprints && c.fingerprints[s.fp] in c.pending) && !Full(c.pending)
    && StandaloneId(self, c.originSeq + 1) in c.buffer
  }

  /** Every other handler hands buffered messages over; submission does not drain the buffer. */
  lemma OverdueExactlyWhen(c: Coord, self: ChainId, s: Step)
    requires NoneOverdue(c)
    ensures NoneOverdue(Next(c, self, s)) <==> !LeavesBehind(c, self, s)
  {
    if s.Submit? {
      var id := StandaloneId(self, c.originSeq + 1);
      assert LeavesBehind(c, self, s) ==> Overdue(SubmitSection(c, self, s.fp, s.txs), id);
    }
  }

  /** No state of a run has overdue messages exactly when no step of it leaves messages behind. */
  lemma NoneOverdueExactlyWhen(self: ChainId, ss: seq<Step>)
    ensures (forall m: nat :: m <= |ss| ==> NoneOverdue(After(self, ss[..m])))
            <==> (forall k: nat :: k < |ss| ==> !LeavesBehind(After(self, ss[..k]), self, ss[k]))
  {
    var good := (m: nat) => m <= |ss| && NoneOverdue(After(self, ss[..m]));
    var flag := (k: nat) => k < |ss| && LeavesBehind(After(self, ss[..k]), self, ss[k]);
    assert ss[..0] == [] && good(0);
    forall k: nat | k < |ss| && good(k) ensures good(k + 1) <==> !flag(k) {
      AfterNext(self, ss, k);
      OverdueExactlyWhen(After(self, ss[..k]), self, ss[k]);
    }
    GoodThroughout(good, flag, |ss|);
    assert forall m: nat :: m <= |ss| ==> (good(m) <==> NoneOverdue(After(self, ss[..m])));
    assert forall k: nat :: k < |ss| ==> (flag(k) <==> LeavesBehind(After(self, ss[..k]), self, ss[k]));
  }

  lemma MessageFirst(self: ChainId, m: Message)
    ensures After(self, [MailboxMessage(m)]) == INITIAL.(buffer := map[m.instanceId := [m]])
  {
    assert [MailboxMessage(m)][..0] == [];
    assert [] + [m] == [m] && |INITIAL.buffer| == 0;
  }

  /** A message that arrives before the submission it belongs to is left behind. */
  lemma MessageThenSubmission(self: ChainId, m: Message, fp: Fingerprint, txs: map<ChainId, seq<Tx>>)
    requires m.instanceId == StandaloneId(self, 1)
    ensures var c := After(self, [MailboxMessage(m)] + [Submit(fp, txs)]);
            && Overdue(c, m.instanceId) && Bucket(c.buffer, m.instanceId) == [m]
            && BoxAt(c.pending, c.index, m.instanceId) == NO_BOX
  {
    var ss := [MailboxMessage(m)] + [Submit(fp, txs)];
    assert ss[..1] == [MailboxMessage(m)] && ss[..2] == ss;
    MessageFirst(self, m);
    AfterNext(self, ss, 1);
    assert Undecided(INITIAL.pending) == {};
  }

  // ---------- They are never handed over ----------

  /** What a step does to the mailbox of `raw` when nothing comes from the buffer. */
  function BoxAlone(c: Coord, s: Step, raw: bytes): Box {
    var b := BoxAt(c.pending, c.index, raw);
    if PassFor(c, s, raw) then Fulfil(b, s.deps)
    else if s.MailboxMessage? && s.msg.instanceId == raw then b.(pending := b.pending + [s.msg])
    else b
  }

  /** The overdue bucket is as it was, or dropped by a rollback, and the mailbox got nothing from it. */
  ghost predicate LeftAlone(c: Coord, c': Coord, s: Step, raw: bytes) {
    && raw in c.index && raw in c'.index && c'.index[raw] == c.index[raw]
    && Bucket(c'.buffer, raw) == (if s.Rollback? then [] else Bucket(c.buffer, raw))
    && BoxAt(c'.pending, c'.index, raw) == BoxAlone(c, s, raw)
  }

  ghost predicate Untouched(c: Coord, c': Coord, raw: bytes) {
    && raw in c.index && raw in c'.index && c'.index[raw] == c.index[raw]
    && Bucket(c'.buffer, raw) == Bucket(c.buffer, raw)
    && BoxAt(c'.pending, c'.index, raw) == BoxAt(c.pending, c.index, raw)
  }

  lemma OtherXtUntouched(c: Coord, xt: PendingXt, fp: Fingerprint, raw: bytes)
    requires raw in c.index && xt.rawId != raw && xt.id != c.index[raw]
    ensures Untouched(c, RegisterDraining(c, xt), raw) && Untouched(c, RegisterSubmitted(c, xt, fp), raw)
  {
  }

  lemma OtherNames(c: Coord, self: ChainId, s: Step, raw: bytes)
    requires Indexed(c.pending, c.index) && !TakesOver(c, self, s) && Registering(c, self, s).Some?
    requires raw in c.index && !Mints(c, self, s, c.index[raw])
    ensures var xt := Registering(c, self, s).value; xt.rawId != raw && xt.id != c.index[raw]
  {
  }

  lemma RegistrationUntouched(c: Coord, self: ChainId, s: Step, raw: bytes)
    requires Indexed(c.pending, c.index) && !TakesOver(c, self, s)
    requires raw in c.index && !Mints(c, self, s, c.index[raw]) && (s.Submit? || s.ForwardedXt? || s.StartInstance?)
    ensures Untouched(c, Next(c, self, s), raw)
  {
    var r := Registering(c, self, s);
    RegistrationState(c, self, s);
    if r.Some? {
      OtherNames(c, self, s, raw);
      var c1 := if s.Submit? then c.(originSeq := c.originSeq + 1) else c.(period := Next(c, self, s).period);
      OtherXtUntouched(c1, r.value, if s.Submit? then s.fp else [], raw);
    }
  }

  lemma RegistrationLeavesAlone(c: Coord, self: ChainId, s: Step, raw: bytes)
    requires Indexed(c.pending, c.index) && !TakesOver(c, self, s)
    requires raw in c.index && !Mints(c, self, s, c.index[raw]) && (s.Submit? || s.ForwardedXt? || s.StartInstance?)
    ensures LeftAlone(c, Next(c, self, s), s, raw)
  {
    RegistrationUntouched(c, self, s, raw);
  }

  lemma TouchLeavesAlone(c: Coord, self: ChainId, s: Step, raw: bytes)
    requires TouchesOne(s) && raw in c.index
    ensures LeftAlone(c, Next(c, self, s), s, raw)
  {
    TouchLedger(c, self, s, raw);
    TouchCases(c, self, s, (x: Coord) => x.index == c.index);
  }

  lemma ArrivalLeavesAlone(c: Coord, s: Step, raw: bytes)
    requires Indexed(c.pending, c.index) && raw in c.index && s.MailboxMessage?
    ensures LeftAlone(c, MailboxSection(c, s.msg), s, raw)
  {
  }

  lemma AbortsLeaveAlone(c: Coord, s: Step, raw: bytes)
    requires raw in c.index
    ensures s.StartPeriod? ==> LeftAlone(c, StartPeriodSection(c, s.p), s, raw)
    ensures s.Rollback? ==> LeftAlone(c, RollbackSection(c), s, raw)
    ensures s.ConfirmIncluded? ==> LeftAlone(c, ConfirmSection(c, s.ids), s, raw)
  {
  }

  lemma BroadcastLeavesAlone(c: Coord, self: ChainId, s: Step, raw: bytes)
    requires Indexed(c.pending, c.index) && raw in c.index
    requires s.MailboxMessage? || s.StartPeriod? || s.Rollback? || s.ConfirmIncluded?
    ensures LeftAlone(c, Next(c, self, s), s, raw)
  {
    if s.MailboxMessage? { ArrivalLeavesAlone(c, s, raw); } else { AbortsLeaveAlone(c, s, raw); }
    BroadcastCases(c, self, s, x => LeftAlone(c, x, s, raw));
  }

  lemma RemovalLeavesAlone(c: Coord, self: ChainId, s: Step, raw: bytes)
    requires Indexed(c.pending, c.index) && raw in c.index && (s.RemovePending? || s.Cleanup?)
    requires c.index[raw] in Next(c, self, s).pending
    ensures LeftAlone(c, Next(c, self, s), s, raw)
  {
  }

  lemma StepLeavesAlone(c: Coord, self: ChainId, s: Step, raw: bytes)
    requires Indexed(c.pending, c.index) && !TakesOver(c, self, s)
    requires raw in c.index && !Mints(c, self, s, c.index[raw])
    requires c.index[raw] in Next(c, self, s).pending
    ensures LeftAlone(c, Next(c, self, s), s, raw)
  {
    if s.Submit? || s.ForwardedXt? || s.StartInstance? { RegistrationLeavesAlone(c, self, s, raw); }
    else if TouchesOne(s) { TouchLeavesAlone(c, self, s, raw); }
    else if s.RemovePending? || s.Cleanup? { RemovalLeavesAlone(c, self, s, raw); }
    else { BroadcastLeavesAlone(c, self, s, raw); }
  }

  lemma RunLeavesAlone(self: ChainId, ss: seq<Step>, k: nat, raw: bytes)
    requires NoTakeover(self, ss) && k < |ss| && raw in After(self, ss[..k]).index
    requires var id := After(self, ss[..k]).index[raw];
             id in After(self, ss[..k + 1]).pending && !Mints(After(self, ss[..k]), self, ss[k], id)
    ensures LeftAlone(After(self, ss[..k]), After(self, ss[..k + 1]), ss[k], raw)
  {
    IndexExactExactlyWhen(self, ss);
    assert ExactAt(self, ss, k) && !TakesOverAt(self, ss, k);
    AfterNext(self, ss, k);
    StepLeavesAlone(After(self, ss[..k]), self, ss[k], raw);
  }

  /** Messages waiting for the XT at `raw` or used up by it. */
  ghost function Taken(self: ChainId, ss: seq<Step>, raw: bytes): multiset<Message> {
    multiset(BoxAt(After(self, ss).pending, After(self, ss).index, raw).pending) + multiset(UsedUp(self, ss, raw))
  }

  lemma StepTakes(self: ChainId, ss: seq<Step>, k: nat, raw: bytes)
    requires k < |ss| && LeftAlone(After(self, ss[..k]), After(self, ss[..k + 1]), ss[k], raw)
    ensures Taken(self, ss[..k + 1], raw) + Received(ss[..k], raw)
         == Taken(self, ss[..k], raw) + Received(ss[..k + 1], raw)
  {
    var c, s := After(self, ss[..k]), ss[k];
    assert ss[..k + 1][..k] == ss[..k];
    if PassFor(c, s, raw) { PassConserves(BoxAt(c.pending, c.index, raw), s.deps); }
  }

  /** What is looked at in one state of a run: index entry and bucket of `raw`, messages taken and received. */
  datatype Sight = Sight(entry: Option<Id>, bucket: seq<Message>, taken: multiset<Message>, received: multiset<Message>)

  /** After the first `m` steps. */
  ghost function SightAt(self: ChainId, ss: seq<Step>, raw: bytes, m: nat): Sight {
    var pre := if m <= |ss| then ss[..m] else ss;
    var c := After(self, pre);
    Sight(if raw in c.index then Some(c.index[raw]) else None,
          Bucket(c.buffer, raw), Taken(self, pre, raw), Received(pre, raw))
  }

  ghost predicate SightStep(x: Sight, y: Sight, rollback: bool) {
    && y.entry == x.entry && y.bucket == (if rollback then [] else x.bucket)
    && y.taken + x.received == x.taken + y.received
  }

  lemma SightStepsJoin(x: Sight, y: Sight, z: Sight, a: bool, b: bool)
    requires SightStep(x, y, a) && SightStep(y, z, b)
    ensures SightStep(x, z, a || b)
  {
    forall m: Message ensures (z.taken + x.received)[m] == (x.taken + z.received)[m] {
      assert (y.taken + x.received)[m] == (x.taken + y.received)[m];
      assert (z.taken + y.received)[m] == (y.taken + z.received)[m];
    }
  }

  predicate RollsBackAt(ss: seq<Step>, k: nat) {
    k < |ss| && ss[k].Rollback?
  }

  ghost predicate RollsBack(ss: seq<Step>, i: nat, j: nat) {
    exists k: nat :: i <= k < j && RollsBackAt(ss, k)
  }

  lemma RollsBackSplit(ss: seq<Step>, i: nat, j: nat)
    requires i < j
    ensures RollsBack(ss, i, j) <==> RollsBack(ss, i, j - 1) || RollsBackAt(ss, j - 1)
  {
  }

  lemma RunSightStep(self: ChainId, ss: seq<Step>, i: nat, j: nat, k: nat, id: Id, raw: bytes)
    requires NoTakeover(self, ss) && i <= k < j <= |ss| && Stays(self, ss, i, j, id)
    requires SightAt(self, ss, raw, k).entry == Some(id)
    ensures SightStep(SightAt(self, ss, raw, k), SightAt(self, ss, raw, k + 1), RollsBackAt(ss, k))
  {
    RunLeavesAlone(self, ss, k, raw);
    StepTakes(self, ss, k, raw);
  }

  lemma {:induction false} RunSightStretch(self: ChainId, ss: seq<Step>, i: nat, j: nat, id: Id, raw: bytes)
    requires NoTakeover(self, ss) && i <= j <= |ss| && Stays(self, ss, i, j, id)
    requires SightAt(self, ss, raw, i).entry == Some(id)
    ensures SightStep(SightAt(self, ss, raw, i), SightAt(self, ss, raw, j), RollsBack(ss, i, j))
    decreases j
  {
    if i < j {
      RunSightStretch(self, ss, i, j - 1, id, raw);
      RunSightStep(self, ss, i, j, j - 1, id, raw);
      SightStepsJoin(SightAt(self, ss, raw, i), SightAt(self, ss, raw, j - 1), SightAt(self, ss, raw, j),
                     RollsBack(ss, i, j - 1), RollsBackAt(ss, j - 1));
      RollsBackSplit(ss, i, j);
    }
  }

  /**
    While its XT stays registered, an overdue bucket is kept as it is until a
    rollback drops it, and no message of it is ever used: what the XT's mailbox
    holds and uses up is what it held and used up before and what arrived since.
   */
  lemma OverdueIsNeverUsed(self: ChainId, ss: seq<Step>, i: nat, j: nat, id: Id, raw: bytes)
    requires NoTakeover(self, ss) && i <= j <= |ss| && Overdue(After(self, ss[..i]), raw)
    requires After(self, ss[..i]).index[raw] == id && Stays(self, ss, i, j, id)
    ensures SightStep(SightAt(self, ss, raw, i), SightAt(self, ss, raw, j), RollsBack(ss, i, j))
  {
    RunSightStretch(self, ss, i, j, id, raw);
  }

  /** Where nothing is overdue, a cleanup tick empties the orphan buffer. */
  lemma CleanupEmptiesBuffer(c: Coord, aged: set<Id>)
    requires NoneOverdue(c)
    ensures CleanupSection(c, aged).buffer == map[]
  {
  }
}
