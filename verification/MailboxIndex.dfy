/** When the index from raw ids to XTs stays exact, whatever mix of registrations a sidecar sees. */
module MailboxIndex {
  import opened Prelude
  import opened Matching
  import opened Xt
  import opened CoordState
  import opened CoordInvariants
  import Admission

  // ---------- What a step registers ----------

  /** The XT a step registers, when it registers one. */
  function Registering(c: Coord, self: ChainId, s: Step): Option<PendingXt> {
    match s
    case Submit(fp, txs) =>
      if (fp in c.fingerprints && c.fingerprints[fp] in c.pending) || Full(c.pending) then None
      else Some(NewSubmitted(self, StandaloneId(self, c.originSeq + 1), c.originSeq + 1, txs))
    case ForwardedXt(id, txs, origin, originSeq) =>
      if id == [] || Clean(txs) == map[] || id in c.pending || Full(c.pending) then None
      else Some(NewForwarded(self, id, txs, origin, originSeq))
    case StartInstance(raw, p, q, txs) =>
      if PublisherId(raw) in c.pending || Full(c.pending) || Admission.Refusal(c.period, p, q).Some? then None
      else Some(NewInstance(self, raw, p, q, txs))
    case _ => None
  }

  /** The raw id belongs to another XT, or the id to an XT with another raw id. */
  predicate Clashes(pending: map<Id, PendingXt>, index: map<bytes, Id>, xt: PendingXt) {
    || (xt.rawId in index && index[xt.rawId] != xt.id)
    || (xt.id in pending && pending[xt.id].rawId != xt.rawId)
  }

  /** The step registers an XT that takes an index entry from another one. */
  predicate TakesOver(c: Coord, self: ChainId, s: Step) {
    Registering(c, self, s).Some? && Clashes(c.pending, c.index, Registering(c, self, s).value)
  }

  /** A registration inserts and indexes its XT; a refused one changes no XT, entry or bucket. */
  lemma RegistrationState(c: Coord, self: ChainId, s: Step)
    requires s.Submit? || s.ForwardedXt? || s.StartInstance?
    ensures var r, c' := Registering(c, self, s), Next(c, self, s);
            && (r.None? ==> c'.pending == c.pending && c'.index == c.index && c'.buffer == c.buffer)
            && (r.Some? && s.Submit? ==> c' == RegisterSubmitted(c.(originSeq := c.originSeq + 1), r.value, s.fp))
            && (r.Some? && !s.Submit? ==>
                c' == RegisterDraining(c.(period := c'.period), r.value) && r.value.id !in c.pending)
  {
  }

  // ---------- One step ----------

  lemma InsertIndexedExactlyWhen(p: map<Id, PendingXt>, index: map<bytes, Id>, xt: PendingXt)
    requires Indexed(p, index)
    ensures Indexed(p[xt.id := xt], index[xt.rawId := xt.id]) <==> !Clashes(p, index, xt)
  {
    var p', index' := p[xt.id := xt], index[xt.rawId := xt.id];
    if !Clashes(p, index, xt) {
      InsertIndexed(p, index, xt);
    } else if xt.rawId in index && index[xt.rawId] != xt.id {
      var previous := index[xt.rawId];
      assert p'[previous].rawId == xt.rawId && index'[xt.rawId] != previous;
    } else {
      var raw := p[xt.id].rawId;
      assert index'[raw] == xt.id && p'[xt.id].rawId != raw;
    }
  }

  lemma SameXtsIndexed(p: map<Id, PendingXt>, q: map<Id, PendingXt>, index: map<bytes, Id>)
    requires Indexed(p, index) && SameXts(p, q)
    ensures Indexed(q, index)
  {
  }

  lemma TouchIndexed(c: Coord, self: ChainId, s: Step)
    requires Indexed(c.pending, c.index) && TouchesOne(s)
    ensures Indexed(Next(c, self, s).pending, Next(c, self, s).index)
  {
    if s.id in c.pending {
      TouchContinues(c.pending[s.id], self, s);
      SameXtsIndexed(c.pending, c.pending[s.id := Touch(c.pending[s.id], self, s)], c.index);
    }
    TouchCases(c, self, s, (x: Coord) => Indexed(x.pending, x.index));
  }

  lemma ArrivalIndexed(c: Coord, m: Message)
    requires Indexed(c.pending, c.index)
    ensures Indexed(MailboxSection(c, m).pending, MailboxSection(c, m).index)
  {
    SameXtsIndexed(c.pending, MailboxSection(c, m).pending, c.index);
  }

  lemma BroadcastIndexed(c: Coord, self: ChainId, s: Step)
    requires Indexed(c.pending, c.index)
    requires s.MailboxMessage? || s.StartPeriod? || s.Rollback? || s.ConfirmIncluded?
    ensures Indexed(Next(c, self, s).pending, Next(c, self, s).index)
  {
    match s {
      case MailboxMessage(m) => ArrivalIndexed(c, m);
      case StartPeriod(p) => SameXtsIndexed(c.pending, StartPeriodSection(c, p).pending, c.index);
      case Rollback => SameXtsIndexed(c.pending, RollbackSection(c).pending, c.index);
      case ConfirmIncluded(ids) => SameXtsIndexed(c.pending, ConfirmSection(c, ids).pending, c.index);
    }
    BroadcastCases(c, self, s, (x: Coord) => Indexed(x.pending, x.index));
  }

  lemma RemovalIndexed(c: Coord, self: ChainId, s: Step)
    requires Indexed(c.pending, c.index) && (s.RemovePending? || s.Cleanup?)
    ensures Indexed(Next(c, self, s).pending, Next(c, self, s).index)
  {
    if s.Cleanup? {
      DropIndexed(c.pending, c.index, Expired(c.pending, s.aged));
    } else if s.id in c.pending {
      DropIndexed(c.pending, c.index, {s.id});
      assert RawIds(c.pending, {s.id}) == {c.pending[s.id].rawId};
    }
    RemovalCases(c, self, s, (x: Coord) => Indexed(x.pending, x.index));
  }

  lemma RegistrationIndexed(c: Coord, self: ChainId, s: Step)
    requires Indexed(c.pending, c.index) && (s.Submit? || s.ForwardedXt? || s.StartInstance?)
    ensures Indexed(Next(c, self, s).pending, Next(c, self, s).index) <==> !TakesOver(c, self, s)
  {
    RegistrationState(c, self, s);
    var r := Registering(c, self, s);
    if r.Some? { InsertIndexedExactlyWhen(c.pending, c.index, Next(c, self, s).pending[r.value.id]); }
  }

  /**
    Registrations check that the id is new, and submissions not even that; none
    checks the raw id. Whatever the step, the index stays exact exactly when the
    step does not take over an entry.
   */
  lemma IndexSurvivesExactlyWhen(c: Coord, self: ChainId, s: Step)
    requires Indexed(c.pending, c.index)
    ensures Indexed(Next(c, self, s).pending, Next(c, self, s).index) <==> !TakesOver(c, self, s)
  {
    if s.Submit? || s.ForwardedXt? || s.StartInstance? { RegistrationIndexed(c, self, s); }
    else if s.RemovePending? || s.Cleanup? { RemovalIndexed(c, self, s); }
    else if TouchesOne(s) { TouchIndexed(c, self, s); }
    else { BroadcastIndexed(c, self, s); }
  }

  // ---------- Whole runs ----------

  /**
    When each step from a good point goes bad exactly when it is flagged, all points
    are good exactly without flags.
   */
  lemma {:induction false} GoodThroughout(good: nat -> bool, flag: nat -> bool, n: nat)
    requires good(0) && forall k: nat :: k < n && good(k) ==> (good(k + 1) <==> !flag(k))
    ensures (forall m: nat :: m <= n ==> good(m)) <==> (forall k: nat :: k < n ==> !flag(k))
  {
    if n > 0 {
      GoodThroughout(good, flag, n - 1);
      assert good(n - 1) ==> (good(n - 1 + 1) <==> !flag(n - 1));
    }
  }

  ghost predicate ExactAt(self: ChainId, ss: seq<Step>, m: nat) {
    m <= |ss| && Indexed(After(self, ss[..m]).pending, After(self, ss[..m]).index)
  }

  ghost predicate TakesOverAt(self: ChainId, ss: seq<Step>, k: nat) {
    k < |ss| && TakesOver(After(self, ss[..k]), self, ss[k])
  }

  /** No step of the run takes over an index entry. */
  ghost predicate NoTakeover(self: ChainId, ss: seq<Step>) {
    forall k: nat :: k < |ss| ==> !TakesOverAt(self, ss, k)
  }

  /** The index is exact in every state of a run exactly when no step of it takes over an entry. */
  lemma IndexExactExactlyWhen(self: ChainId, ss: seq<Step>)
    ensures (forall m: nat :: m <= |ss| ==> ExactAt(self, ss, m)) <==> NoTakeover(self, ss)
  {
    assert ss[..0] == [];
    forall k: nat | k < |ss| && ExactAt(self, ss, k) ensures ExactAt(self, ss, k + 1) <==> !TakesOverAt(self, ss, k) {
      AfterNext(self, ss, k);
      IndexSurvivesExactlyWhen(After(self, ss[..k]), self, ss[k]);
    }
    var good, flag := (m: nat) => ExactAt(self, ss, m), (k: nat) => TakesOverAt(self, ss, k);
    GoodThroughout(good, flag, |ss|);
    assert forall m: nat :: good(m) <==> ExactAt(self, ss, m);
    assert forall k: nat :: flag(k) <==> TakesOverAt(self, ss, k);
  }

  // ---------- Names that are new ----------

  /** What the step registers has an id that is not pending and a raw id that is not indexed. */
  predicate Fresh(c: Coord, self: ChainId, s: Step) {
    var r := Registering(c, self, s);
    r.Some? ==> r.value.id !in c.pending && r.value.rawId !in c.index
  }

  lemma RegisteredName(c: Coord, self: ChainId, sch: Naming, s: Step)
    requires Allowed(sch, self, s) && Registering(c, self, s).Some?
    ensures NameFits(sch, Registering(c, self, s).value)
  {
  }

  /** Names that are apart are new whenever they are registered. */
  lemma ApartIsFresh(c: Coord, self: ChainId, sch: Naming, s: Step)
    requires Apart(sch) && Coherent(c, sch) && Allowed(sch, self, s) && UnmintedUnused(c, self)
    ensures Fresh(c, self, s)
  {
    var r := Registering(c, self, s);
    if r.Some? {
      RegisteredName(c, self, sch, s);
      RawIdNamesId(c.pending, c.index, sch, r.value);
    }
  }

  /** Names that are apart never take over an entry. */
  lemma ApartNeverTakesOver(self: ChainId, sch: Naming, ss: seq<Step>)
    requires AllowedRun(sch, self, ss)
    ensures NoTakeover(self, ss)
  {
    forall m: nat | m <= |ss| ensures ExactAt(self, ss, m) { ReachableIsCoherent(self, sch, ss[..m]); }
    IndexExactExactlyWhen(self, ss);
  }

  // ---------- Both kinds of XT in one sidecar ----------

  lemma InstanceFirst(self: ChainId, raw: bytes, txs: map<ChainId, seq<Tx>>)
    ensures After(self, [StartPeriod(1), StartInstance(raw, 1, 1, txs)])
         == RegisterDraining(INITIAL.(period := Admission.Period(Some(1), Some(1))), NewInstance(self, raw, 1, 1, txs))
  {
    var ss := [StartPeriod(1), StartInstance(raw, 1, 1, txs)];
    assert ss[..0] == [] && ss[..2] == ss;
    AfterNext(self, ss, 0);
    AfterNext(self, ss, 1);
    assert After(self, ss[..1]) == INITIAL.(period := Admission.Open(1));
    assert Undecided(INITIAL.pending) == {};
  }

  /** The sidecar holds exactly one publisher instance. */
  ghost predicate HoldsInstance(c: Coord, raw: bytes) {
    && Indexed(c.pending, c.index) && c.index == map[raw := PublisherId(raw)] && c.pending.Keys == {PublisherId(raw)}
    && c.fingerprints == map[] && c.originSeq == 0
  }

  lemma InstanceHeld(self: ChainId, raw: bytes, txs: map<ChainId, seq<Tx>>)
    ensures HoldsInstance(After(self, [StartPeriod(1), StartInstance(raw, 1, 1, txs)]), raw)
  {
    InstanceFirst(self, raw, txs);
  }

  lemma NotFull(c: Coord, raw: bytes)
    requires HoldsInstance(c, raw)
    ensures !Full(c.pending)
  {
    SubsetCount(Undecided(c.pending), {PublisherId(raw)});
  }

  lemma AfterInstance(self: ChainId, raw: bytes, txs: map<ChainId, seq<Tx>>, s: Step)
    ensures var ss := [StartPeriod(1), StartInstance(raw, 1, 1, txs)];
            After(self, ss + [s]) == Next(After(self, ss), self, s)
  {
    var ss := [StartPeriod(1), StartInstance(raw, 1, 1, txs)];
    assert (ss + [s])[..2] == ss && (ss + [s])[..3] == ss + [s];
    AfterNext(self, ss + [s], 2);
  }

  /** A forwarded XT named like the raw bytes of a publisher instance takes over its index entry. */
  lemma InstanceThenForward(self: ChainId, raw: bytes, txs: map<ChainId, seq<Tx>>, origin: ChainId, n: nat)
    requires raw != [] && Clean(txs) != map[]
    ensures var c := After(self, [StartPeriod(1), StartInstance(raw, 1, 1, txs)] + [ForwardedXt(raw, txs, origin, n)]);
            !Indexed(c.pending, c.index)
  {
    var c, s := After(self, [StartPeriod(1), StartInstance(raw, 1, 1, txs)]), ForwardedXt(raw, txs, origin, n);
    InstanceHeld(self, raw, txs);
    NotFull(c, raw);
    AfterInstance(self, raw, txs, s);
    PublisherIdInjective(raw, raw);
    IndexSurvivesExactlyWhen(c, self, s);
  }

  lemma SubmissionClashes(c: Coord, self: ChainId, raw: bytes, s: Step)
    requires HoldsInstance(c, raw) && s.Submit?
    ensures var r := Registering(c, self, s);
            && r.Some? && r.value.id == StandaloneId(self, 1)
            && (Clashes(c.pending, c.index, r.value) <==> raw == StandaloneId(self, 1))
  {
    NotFull(c, raw);
    HexIsNotMinted(self, 1, raw);
  }

  /**
    A submission after a publisher instance: both XTs are pending, and the index
    is exact exactly when the instance's raw bytes are not the id minted.
   */
  lemma InstanceThenSubmission(self: ChainId, raw: bytes, txs: map<ChainId, seq<Tx>>, fp: Fingerprint)
    ensures var c := After(self, [StartPeriod(1), StartInstance(raw, 1, 1, txs)] + [Submit(fp, txs)]);
            && PublisherId(raw) in c.pending && StandaloneId(self, 1) in c.pending
            && (Indexed(c.pending, c.index) <==> raw != StandaloneId(self, 1))
  {
    var c, s := After(self, [StartPeriod(1), StartInstance(raw, 1, 1, txs)]), Submit(fp, txs);
    InstanceHeld(self, raw, txs);
    AfterInstance(self, raw, txs, s);
    SubmissionClashes(c, self, raw, s);
    RegistrationState(c, self, s);
    IndexSurvivesExactlyWhen(c, self, s);
  }
}
