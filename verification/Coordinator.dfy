/** `CoordinatorState` as the handlers change it in place, each proved against the step it takes. */
module Coordinator {
  import opened Prelude
  import opened Matching
  import opened Fulfilment
  import opened Xt
  import opened CoordState
  import opened StepLaws
  import Admission
  import Pipeline

  datatype Error = NoTransactions | TooFewChains | MissingId | TooManyPending | AlreadyPending | NotFound

  function SubmitAnswer(c: Coord, self: ChainId, fp: Fingerprint): Result<Id, Error> {
    if fp in c.fingerprints && c.fingerprints[fp] in c.pending then Ok(c.fingerprints[fp])
    else if Full(c.pending) then Err(TooManyPending)
    else Ok(StandaloneId(self, c.originSeq + 1))
  }

  // ---------- Loops over a map, one key at a time ----------

  /** The keys of a loop are those to do and those done. */
  ghost predicate Split(keys: set<Id>, todo: set<Id>, done: set<Id>) {
    todo !! done && todo + done == keys
  }

  lemma SplitStep(keys: set<Id>, todo: set<Id>, done: set<Id>, id: Id)
    requires Split(keys, todo, done) && id in todo
    ensures Split(keys, todo - {id}, done + {id}) && id in keys && id !in done
  {
  }

  ghost function Only(m: map<Id, PendingXt>, ids: set<Id>): map<Id, PendingXt> {
    map id | id in m && id in ids :: m[id]
  }

  lemma UndecidedStep(m: map<Id, PendingXt>, ids: set<Id>, id: Id)
    requires id in m && id !in ids
    ensures |Undecided(Only(m, ids + {id}))| == |Undecided(Only(m, ids))| + if m[id].decision.None? then 1 else 0
  {
    var before := Undecided(Only(m, ids));
    assert Undecided(Only(m, ids + {id})) == if m[id].decision.None? then before + {id} else before;
  }

  /** The two loops that abort XTs: the stale ones at a new period, all of them at a rollback. */
  datatype Sweep = AtPeriod(p: u64) | AtRollback

  function SweptXt(k: Sweep, x: PendingXt): PendingXt {
    if k.AtPeriod? then Outdated(x, k.p) else RolledBack(x)
  }

  /** The builder is told to drop the XT. */
  predicate Told(k: Sweep, self: ChainId, x: PendingXt) {
    (k.AtPeriod? ==> Stale(x, k.p)) && HasLocal(x, self)
  }

  ghost function Mapped(k: Sweep, m: map<Id, PendingXt>, ids: set<Id>): map<Id, PendingXt> {
    map id | id in m :: if id in ids then SweptXt(k, m[id]) else m[id]
  }

  ghost function Aborts(k: Sweep, self: ChainId, m: map<Id, PendingXt>, ids: set<Id>): set<Command> {
    set id | id in ids && id in m && Told(k, self, m[id]) :: AbortXt(m[id].id)
  }

  /** The loop has done `done`. */
  ghost predicate Swept(
      k: Sweep, self: ChainId, was: map<Id, PendingXt>, done: set<Id>, now: map<Id, PendingXt>, aborts: set<Command>)
  {
    now == Mapped(k, was, done) && aborts == Aborts(k, self, was, done)
  }

  lemma NothingSwept(k: Sweep, self: ChainId, was: map<Id, PendingXt>)
    ensures Swept(k, self, was, {}, was, {})
  {
  }

  lemma NotYetSwept(
      k: Sweep, self: ChainId, was: map<Id, PendingXt>, done: set<Id>, now: map<Id, PendingXt>, aborts: set<Command>,
          id: Id)
    requires Swept(k, self, was, done, now, aborts) && id in was && id !in done
    ensures id in now && now[id] == was[id]
  {
  }

  lemma SweptOneMore(
      k: Sweep, self: ChainId, was: map<Id, PendingXt>, done: set<Id>, now: map<Id, PendingXt>, aborts: set<Command>,
          id: Id)
    requires Swept(k, self, was, done, now, aborts) && id in was && id !in done
    ensures Swept(k, self, was, done + {id}, now[id := SweptXt(k, was[id])],
                  aborts + if Told(k, self, was[id]) then {AbortXt(was[id].id)} else {})
  {
  }

  lemma StartPeriodSweeps(c: Coord, self: ChainId, p: u64)
    ensures StartPeriodSection(c, p).pending == Mapped(AtPeriod(p), c.pending, c.pending.Keys)
    ensures Commands(c, self, StartPeriod(p)) == Aborts(AtPeriod(p), self, c.pending, c.pending.Keys)
  {
  }

  lemma RollbackSweeps(c: Coord, self: ChainId)
    ensures RollbackSection(c).pending == Mapped(AtRollback, c.pending, c.pending.Keys)
    ensures Commands(c, self, Rollback) == Aborts(AtRollback, self, c.pending, c.pending.Keys)
  {
  }

  /** The removal loop has looked at `done`. */
  ghost predicate Pruned(
      was: map<Id, PendingXt>, aged: set<Id>, done: set<Id>, now: map<Id, PendingXt>, raws: set<bytes>)
  {
    var gone := Expired(Only(was, done), aged);
    now == was - gone && raws == RawIds(was, gone)
  }

  lemma NothingPruned(was: map<Id, PendingXt>, aged: set<Id>)
    ensures Pruned(was, aged, {}, was, {})
  {
  }

  lemma PrunedOneMore(
      was: map<Id, PendingXt>, aged: set<Id>, done: set<Id>, now: map<Id, PendingXt>, raws: set<bytes>, id: Id)
    requires Pruned(was, aged, done, now, raws) && id in was && id !in done
    ensures id in now && now[id] == was[id]
    ensures var goes := id in aged && (was[id].confirmed || was[id].decided);
            Pruned(was, aged, done + {id}, if goes then now - {id} else now, if goes then raws + {was[id].rawId}
                else raws)
  {
    var goes := id in aged && (was[id].confirmed || was[id].decided);
    var gone := Expired(Only(was, done), aged);
    assert Expired(Only(was, done + {id}), aged) == gone + if goes then {id} else {};
  }

  lemma PrunedAll(c: Coord, aged: set<Id>, now: map<Id, PendingXt>, raws: set<bytes>)
    requires Pruned(c.pending, aged, c.pending.Keys, now, raws)
    ensures now == CleanupSection(c, aged).pending && c.index - raws == CleanupSection(c, aged).index
  {
    assert Only(c.pending, c.pending.Keys) == c.pending;
  }

  class CoordinatorState {
    const self: ChainId
    var pending: map<Id, PendingXt>
    var period: Admission.Period
    var originSeq: nat
    var fingerprints: map<Fingerprint, Id>
    var index: map<bytes, Id>
    var buffer: map<bytes, seq<Message>>

    ghost function View(): Coord
      reads this
    {
      Coord(pending, period, originSeq, fingerprints, index, buffer)
    }

    constructor (chain: ChainId)
      ensures self == chain && View() == INITIAL
    {
      self, originSeq, period := chain, 0, Admission.CLOSED;
      pending, fingerprints, index, buffer := map[], map[], map[], map[];
    }

    // ---------- Shared pieces ----------

    method CountUndecided() returns (n: nat)
      ensures n == |Undecided(pending)|
    {
      n := 0;
      var todo := pending.Keys;
      ghost var done: set<Id> := {};
      assert Undecided(Only(pending, done)) == {};
      while todo != {}
        invariant Split(pending.Keys, todo, done) && n == |Undecided(Only(pending, done))|
        decreases |todo|
      {
        var id :| id in todo;
        SplitStep(pending.Keys, todo, done, id);
        UndecidedStep(pending, done, id);
        if pending[id].decision.None? { n := n + 1; }
        todo, done := todo - {id}, done + {id};
      }
      assert Only(pending, done) == pending;
    }

    method BufferOrphanMailbox(m: Message)
      modifies this`buffer
      ensures View() == BufferOrphan(old(View()), m)
    {
      if m.instanceId !in buffer && |buffer| >= MAILBOX_BUFFER_MAX_KEYS { return; }
      var bucket := if m.instanceId in buffer then buffer[m.instanceId] else [];
      if |bucket| >= MAILBOX_BUFFER_MAX_PER_KEY { return; }
      buffer := buffer[m.instanceId := bucket + [m]];
    }

    method DrainMailboxBuffer(raw: bytes) returns (ms: seq<Message>)
      modifies this`buffer
      ensures ms == Bucket(old(buffer), raw) && buffer == old(buffer) - {raw}
    {
      ms := if raw in buffer then buffer[raw] else [];
      buffer := buffer - {raw};
    }

    method Register(xt: PendingXt)
      modifies this`index, this`pending, this`buffer
      ensures View() == RegisterDraining(old(View()), xt)
    {
      index := index[xt.rawId := xt.id];
      pending := pending[xt.id := xt];
      var buffered := DrainMailboxBuffer(xt.rawId);
      assert xt.box.pending + [] == xt.box.pending;
      if buffered != [] {
        pending := pending[xt.id := xt.(box := xt.box.(pending := xt.box.pending + buffered))];
      }
      assert pending == RegisterDraining(old(View()), xt).pending;
    }

    // ---------- Registrations ----------

    /** A duplicate of a pending submission gets its id back; at least two chains must take part. */
    method SubmitStandalone(fp: Fingerprint, txs: map<ChainId, seq<Tx>>) returns (r: Result<Id, Error>)
      modifies this
      ensures |txs| < 2 ==> View() == old(View()) && r == Err(if |txs| == 0 then NoTransactions else TooFewChains)
      ensures |txs| >= 2 ==>
              View() == SubmitSection(old(View()), self, fp, txs) && r == SubmitAnswer(old(View()), self, fp)
      ensures r.Ok? ==> r.value in pending && fp in fingerprints && fingerprints[fp] == r.value
      ensures |txs| >= 2 && r.Err? ==> r.error == TooManyPending && |Undecided(old(pending))| >= 100
    {
      if txs == map[] { return Err(NoTransactions); }
      if |txs| < 2 { return Err(TooFewChains); }
      if fp in fingerprints {
        if fingerprints[fp] in pending { return Ok(fingerprints[fp]); }
        fingerprints := fingerprints - {fp};
      }
      var n := CountUndecided();
      assert fingerprints == old(fingerprints) - {fp};
      if n >= MAX_PENDING_XTS { return Err(TooManyPending); }
      originSeq := originSeq + 1;
      var id := StandaloneId(self, originSeq);
      index := index[id := id];
      pending := pending[id := NewXt(id, id).(originChain := Some(self), originSeq := originSeq, rawTxs := txs,
          locked := {self})];
      fingerprints := fingerprints[fp := id];
      assert fingerprints == old(fingerprints)[fp := id];
      return Ok(id);
    }

    /** A forwarded XT that is already pending is accepted without effect. */
    method HandleForwardedXt(id: Id, txs: map<ChainId, seq<Tx>>, origin: ChainId, originSeq': nat)
      returns (r: Result<(), Error>)
      modifies this
      ensures View() == ForwardedSection(old(View()), self, id, txs, origin, originSeq')
      ensures r == if id == [] then Err(MissingId) else if Clean(txs) == map[] then Err(NoTransactions)
                   else if id !in old(pending) && Full(old(pending)) then Err(TooManyPending) else Ok(())
    {
      if id == [] { return Err(MissingId); }
      var clean := Clean(txs);
      if clean == map[] { return Err(NoTransactions); }
      if id in pending { return Ok(()); }
      var n := CountUndecided();
      if n >= MAX_PENDING_XTS { return Err(TooManyPending); }
      Register(NewForwarded(self, id, txs, origin, originSeq'));
      return Ok(());
    }

    /** A refused admission is not an error of the handler; `admitted` tells it apart. */
    method HandleStartInstance(raw: bytes, p: u64, q: u64, txs: map<ChainId, seq<Tx>>)
      returns (r: Result<(), Error>, admitted: bool)
      modifies this
      ensures View() == StartInstanceSection(old(View()), self, raw, p, q, txs)
      ensures r == if PublisherId(raw) in old(pending) then Err(AlreadyPending)
                   else if Full(old(pending)) then Err(TooManyPending) else Ok(())
      ensures admitted <==> r.Ok? && Admission.Refusal(old(period), p, q).None?
    {
      admitted := false;
      if PublisherId(raw) in pending { return Err(AlreadyPending), false; }
      var n := CountUndecided();
      if n >= MAX_PENDING_XTS { return Err(TooManyPending), false; }
      if Admission.Refusal(period, p, q).Some? { return Ok(()), false; }
      period := Admission.Period(Some(p), Some(q));
      Register(NewInstance(self, raw, p, q, txs));
      return Ok(()), true;
    }

    method HandleMailboxMessage(m: Message)
      modifies this
      ensures View() == MailboxSection(old(View()), m)
    {
      if m.instanceId in index {
        var id := index[m.instanceId];
        if id in pending {
          var xt := pending[id];
          pending := pending[id := xt.(box := xt.box.(pending := xt.box.pending + [m]))];
        }
      } else {
        BufferOrphanMailbox(m);
      }
    }

    // ---------- Votes and decisions ----------

    /** The first local vote wins; without a publisher it may settle the XT. */
    method SendVote(id: Id, vote: bool, standalone: bool) returns (command: Option<Command>)
      modifies this`pending
      ensures View() == Next(old(View()), self, LocalVote(id, vote, standalone))
      ensures Commands(old(View()), self, LocalVote(id, vote, standalone)) == if command.Some? then {command.value}
              else {}
    {
      command := None;
      if id !in pending { return; }
      var xt := pending[id];
      if xt.localVote.Some? { return; }
      var cast := xt.(simulated := true, voteSent := true, localVote := Some(vote), locked := xt.locked + {self});
      if standalone {
        var settled, made := MaybeMakeStandaloneDecision(cast, self);
        if made.Some? { command := LocalCommand(settled, self, made.value.0); }
        pending := pending[id := settled];
      } else {
        pending := pending[id := cast];
      }
    }

    method HandlePeerVote(id: Id, chain: ChainId, vote: bool) returns (r: Result<Option<Command>, Error>)
      modifies this`pending
      ensures View() == Next(old(View()), self, HearPeerVote(id, chain, vote))
      ensures r.Err? <==> id !in old(pending)
      ensures Commands(old(View()), self, HearPeerVote(id, chain, vote)) == if r.Ok? && r.value.Some?
              then {r.value.value} else {}
    {
      if id !in pending { return Err(NotFound); }
      var xt := pending[id];
      if xt.decision.Some? { return Ok(None); }
      if chain in xt.peerVotes { return Ok(None); }
      var settled, made := MaybeMakeStandaloneDecision(xt.(peerVotes := xt.peerVotes[chain := vote]), self);
      pending := pending[id := settled];
      if made.Some? { return Ok(LocalCommand(settled, self, made.value.0)); }
      return Ok(None);
    }

    method HandleDecision(id: Id, decision: bool) returns (r: Result<Option<Command>, Error>)
      modifies this`pending
      ensures View() == Next(old(View()), self, OnDecision(id, decision))
      ensures r.Err? <==> id !in old(pending)
      ensures Commands(old(View()), self, OnDecision(id, decision)) == if r.Ok? && r.value.Some? then {r.value.value}
              else {}
      ensures id in old(pending) && old(pending)[id].decision.None? ==>
                && id in pending && pending[id].decision == Some(decision)
                && (r.value.Some? <==> ActsLocally(old(pending)[id], self))
                && (r.value.Some? ==> r.value.value.id == old(pending)[id].id && r.value.value.Release? == decision)
    {
      if id !in pending { return Err(NotFound); }
      var xt := pending[id];
      if xt.decision.Some? { return Ok(None); }
      var decided := RecordDecision(xt, decision);
      pending := pending[id := decided];
      return Ok(LocalCommand(decided, self, decision));
    }

    // ---------- Loops over all pending XTs ----------

    /** At a new period a committed or confirmed XT is left to its confirmation. */
    method AbortOne(k: Sweep, id: Id) returns (abort: set<Command>)
      requires id in pending
      modifies this`pending
      ensures pending == old(pending)[id := SweptXt(k, old(pending)[id])]
      ensures abort == if Told(k, self, old(pending)[id]) then {AbortXt(old(pending)[id].id)} else {}
    {
      abort := {};
      var xt := pending[id];
      if k.AtPeriod? {
        if xt.period == 0 || xt.period >= k.p || xt.confirmed { return; }
        if xt.decision == Some(true) { return; }
      }
      if HasLocal(xt, self) { abort := {AbortXt(xt.id)}; }
      if xt.decision.None? || (k.AtRollback? && xt.decision != Some(false)) {
        pending := pending[id := RecordDecision(xt, false)];
      }
    }

    method SweepOne(k: Sweep, id: Id, aborts: set<Command>, ghost was: map<Id, PendingXt>, ghost done: set<Id>)
      returns (aborts': set<Command>)
      requires id in was && id !in done && Swept(k, self, was, done, pending, aborts)
      modifies this`pending
      ensures Swept(k, self, was, done + {id}, pending, aborts')
    {
      NotYetSwept(k, self, was, done, pending, aborts, id);
      SweptOneMore(k, self, was, done, pending, aborts, id);
      var more := AbortOne(k, id);
      aborts' := aborts + more;
    }

    /** In whatever order the map yields its XTs. */
    method SweepAll(k: Sweep) returns (aborts: set<Command>)
      modifies this`pending
      ensures Swept(k, self, old(pending), old(pending).Keys, pending, aborts)
    {
      aborts := {};
      var todo := pending.Keys;
      ghost var was, done: set<Id> := pending, {};
      NothingSwept(k, self, was);
      while todo != {}
        invariant Split(was.Keys, todo, done)
        invariant Swept(k, self, was, done, pending, aborts)
        decreases |todo|
      {
        var id :| id in todo;
        SplitStep(was.Keys, todo, done, id);
        aborts := SweepOne(k, id, aborts, was, done);
        todo, done := todo - {id}, done + {id};
      }
      assert done == was.Keys;
    }

    method HandleStartPeriod(p: u64) returns (aborts: set<Command>)
      modifies this
      ensures View() == StartPeriodSection(old(View()), p)
      ensures aborts == Commands(old(View()), self, StartPeriod(p))
      ensures pending.Keys == old(pending).Keys && forall id :: id in pending ==>
                pending[id].decision == if old(pending)[id].decision.None? && OlderThan(old(pending)[id], p)
                                        then Some(false) else old(pending)[id].decision
    {
      StartPeriodSweeps(View(), self, p);
      aborts := SweepAll(AtPeriod(p));
      period := Admission.Open(p);
    }

    method HandleRollback() returns (aborts: set<Command>)
      modifies this
      ensures View() == RollbackSection(old(View()))
      ensures aborts == Commands(old(View()), self, Rollback)
    {
      RollbackSweeps(View(), self);
      aborts := SweepAll(AtRollback);
      period, buffer := Admission.CLOSED, map[];
    }

    /** Ids the coordinator does not know are skipped. */
    method ConfirmIncludedXts(ids: seq<Id>)
      modifies this`pending
      ensures View() == ConfirmSection(old(View()), set id | id in ids)
    {
      ghost var was := pending;
      for i := 0 to |ids|
        invariant pending.Keys == was.Keys
        invariant forall id :: id in was ==>
                  pending[id] == if id in ids[..i] then was[id].(confirmed := true) else was[id]
      {
        assert ids[..i + 1] == ids[..i] + [ids[i]];
        if ids[i] in pending { pending := pending[ids[i] := pending[ids[i]].(confirmed := true)]; }
      }
      assert ids[..|ids|] == ids;
      assert pending == ConfirmSection(old(View()), set id | id in ids).pending;
    }

    // ---------- Removal ----------

    method RetainFingerprints(keep: Id -> bool)
      modifies this`fingerprints
      ensures fingerprints == map fp | fp in old(fingerprints) && keep(old(fingerprints)[fp]) :: old(fingerprints)[fp]
    {
      ghost var was := fingerprints;
      var todo := fingerprints.Keys;
      while todo != {}
        invariant todo <= was.Keys
        invariant fingerprints == map fp | fp in was && (fp in todo || keep(was[fp])) :: was[fp]
        decreases |todo|
      {
        var fp :| fp in todo;
        todo := todo - {fp};
        if !keep(fingerprints[fp]) { fingerprints := fingerprints - {fp}; }
      }
    }

    method RemovePendingXt(id: Id) returns (removed: bool)
      modifies this
      ensures View() == RemoveSection(old(View()), id)
      ensures removed <==> id in old(pending)
    {
      if id !in pending { return false; }
      index := index - {pending[id].rawId};
      pending := pending - {id};
      RetainFingerprints(other => other != id);
      return true;
    }

    /** Drops the XTs past the age limit and returns their raw ids. */
    method DropExpired(aged: set<Id>) returns (raws: set<bytes>)
      modifies this`pending
      ensures Pruned(old(pending), aged, old(pending).Keys, pending, raws)
    {
      raws := {};
      ghost var was, done: set<Id> := pending, {};
      var todo := pending.Keys;
      NothingPruned(was, aged);
      while todo != {}
        invariant Split(was.Keys, todo, done)
        invariant Pruned(was, aged, done, pending, raws)
        decreases |todo|
      {
        var id :| id in todo;
        SplitStep(was.Keys, todo, done, id);
        PrunedOneMore(was, aged, done, pending, raws, id);
        if id in aged && (pending[id].confirmed || pending[id].decided) {
          raws, pending := raws + {pending[id].rawId}, pending - {id};
        }
        todo, done := todo - {id}, done + {id};
      }
      assert done == was.Keys;
    }

    method DropUnindexed()
      modifies this`buffer
      ensures buffer == map raw | raw in old(buffer) && raw in index :: old(buffer)[raw]
    {
      ghost var was := buffer;
      var todo := buffer.Keys;
      while todo != {}
        invariant todo <= was.Keys
        invariant buffer == map raw | raw in was && (raw in todo || raw in index) :: was[raw]
        decreases |todo|
      {
        var raw :| raw in todo;
        todo := todo - {raw};
        if raw !in index { buffer := buffer - {raw}; }
      }
    }

    method Cleanup(aged: set<Id>)
      modifies this
      ensures View() == CleanupSection(old(View()), aged)
    {
      var raws := DropExpired(aged);
      PrunedAll(old(View()), aged, pending, raws);
      index := index - raws;
      var kept := pending.Keys;
      RetainFingerprints(id => id in kept);
      DropUnindexed();
    }

    // ---------- Steps of the simulation pipeline ----------

    method RecordSimulationState(id: Id, deps: seq<Dependency>, outbound: seq<Outbound>)
      modifies this`pending
      ensures View() == Next(old(View()), self, RecordSimulation(id, deps, outbound))
    {
      if id !in pending { return; }
      var x1 := Pipeline.RecordDeps(pending[id], deps);
      var x2 := Pipeline.RecordMessages(x1, outbound);
      pending := pending[id := x2];
    }

    method FulfilDependencies(id: Id, deps: seq<Dependency>) returns (added: nat)
      modifies this`pending
      ensures View() == Next(old(View()), self, FulfilPass(id, deps))
      ensures added == if id in old(pending) then |Consumed(old(pending)[id].box, deps)| else 0
    {
      if id !in pending { return 0; }
      TouchedState(View(), self, FulfilPass(id, deps));
      var xt := pending[id];
      var box, n := FulfilFromMailbox(xt.box, deps);
      pending := pending[id := xt.(box := box)];
      assert pending[id] == FulfilXt(xt, deps);
      return n;
    }

    method DispatchOutbound(id: Id, outbound: seq<Outbound>) returns (sent: seq<Message>)
      modifies this`pending
      ensures id !in old(pending) ==> View() == old(View()) && sent == []
      ensures id in old(pending) ==>
                var keys := Pipeline.SentKeys(Pipeline.Wired(old(pending)[id].rawId, outbound));
                && View() == Next(old(View()), self, MarkSent(id, keys))
                && sent == Pipeline.FirstPerKey(Pipeline.Wired(old(pending)[id].rawId, outbound),
                    old(pending)[id].sentKeys)
    {
      if id !in pending { return []; }
      TouchedState(View(), self, MarkSent(id, Pipeline.SentKeys(Pipeline.Wired(pending[id].rawId, outbound))));
      var xt, ms := Pipeline.DispatchOutbound(pending[id], outbound);
      pending := pending[id := xt];
      return ms;
    }
  }
}
