/**
  What each critical section does, told on the fields of the state and the inputs
  of the step alone: which votes decide, which XTs a sweep aborts, what a
  registration stores, which commands go out.
 */
module StepLaws {
  import opened Prelude
  import opened Matching
  import Fulfilment
  import opened Xt
  import opened CoordState
  import opened CoordInvariants
  import Admission

  // ---------- Local transactions and the dependencies of a release ----------

  predicate ActsLocally(xt: PendingXt, self: ChainId) {
    self in xt.rawTxs && |xt.rawTxs[self]| > 0
  }

  /** `out` is what `deps` holds at the positions `at`: all entries for chain `c` and no others, in order. */
  ghost predicate PickedAt(out: seq<Dependency>, deps: seq<Dependency>, c: ChainId, at: seq<nat>) {
    && |at| == |out|
    && (forall i :: 0 <= i < |at| ==> at[i] < |deps| && out[i] == deps[at[i]] && deps[at[i]].destChain == c)
    && (forall i, j :: 0 <= i < j < |at| ==> at[i] < at[j])
    && (forall k: nat :: k < |deps| && deps[k].destChain == c ==> k in at)
  }

  ghost predicate Picked(out: seq<Dependency>, deps: seq<Dependency>, c: ChainId) {
    exists at :: PickedAt(out, deps, c, at)
  }

  lemma {:induction false} PickLast(deps: seq<Dependency>, d: Dependency, c: ChainId)
    ensures DepsForChain(deps + [d], c) == DepsForChain(deps, c) + if d.destChain == c then [d] else []
  {
    if deps == [] {
      assert deps + [d] == [d] && [d][1..] == [];
    } else {
      PickLast(deps[1..], d, c);
      assert (deps + [d])[0] == deps[0] && (deps + [d])[1..] == deps[1..] + [d];
    }
  }

  lemma PickedToo(out: seq<Dependency>, deps: seq<Dependency>, c: ChainId, at: seq<nat>, d: Dependency)
    requires PickedAt(out, deps, c, at) && d.destChain == c
    ensures PickedAt(out + [d], deps + [d], c, at + [|deps|])
  {
    var at', deps' := at + [|deps|], deps + [d];
    assert at'[|at|] == |deps|;
    forall k: nat | k < |deps'| && deps'[k].destChain == c ensures k in at' {
      if k < |deps| { assert k in at; }
    }
  }

  lemma PickedNotToo(out: seq<Dependency>, deps: seq<Dependency>, c: ChainId, at: seq<nat>, d: Dependency)
    requires PickedAt(out, deps, c, at) && d.destChain != c
    ensures PickedAt(out, deps + [d], c, at)
  {
  }

  /** A release carries exactly the fulfilled dependencies of the local chain, in the order they were fulfilled. */
  lemma {:induction false} ReleaseCarries(deps: seq<Dependency>, c: ChainId)
    ensures Picked(DepsForChain(deps, c), deps, c)
  {
    if deps == [] {
      assert PickedAt([], deps, c, []);
    } else {
      var front, d := deps[..|deps| - 1], deps[|deps| - 1];
      assert deps == front + [d];
      ReleaseCarries(front, c);
      PickLast(front, d, c);
      var at :| PickedAt(DepsForChain(front, c), front, c, at);
      if d.destChain == c {
        PickedToo(DepsForChain(front, c), front, c, at, d);
      } else {
        PickedNotToo(DepsForChain(front, c), front, c, at, d);
        assert DepsForChain(front, c) + [] == DepsForChain(front, c);
      }
    }
  }

  // ---------- Which step decides what ----------

  ghost predicate Unopposed(own: Option<bool>, peers: map<ChainId, bool>, self: ChainId) {
    own != Some(false) && forall c :: c in peers && c != self ==> peers[c]
  }

  function Votes(own: Option<bool>, peers: map<ChainId, bool>, self: ChainId): nat {
    (if own.Some? then 1 else 0) + |peers.Keys - {self}|
  }

  /** These votes on an XT of `n` chains settle it as `d`. */
  ghost predicate SettledAs(own: Option<bool>, peers: map<ChainId, bool>, self: ChainId, n: nat, d: bool) {
    if d then Unopposed(own, peers, self) && 0 < n <= Votes(own, peers, self) else !Unopposed(own, peers, self)
  }

  /** The step decides the undecided XT as `d`. */
  ghost predicate DecidesAs(xt: PendingXt, self: ChainId, s: Step, d: bool) {
    match s
    case OnDecision(_, decision) => decision == d
    case HearPeerVote(_, chain, vote) =>
      chain !in xt.peerVotes && SettledAs(xt.localVote, xt.peerVotes[chain := vote], self, |xt.rawTxs|, d)
    case LocalVote(_, vote, standalone) =>
      standalone && xt.localVote.None? && SettledAs(Some(vote), xt.peerVotes, self, |xt.rawTxs|, d)
    case _ => false
  }

  lemma VotesOnFields(xt: PendingXt, self: ChainId)
    ensures Collected(xt, self) == Votes(xt.localVote, xt.peerVotes, self)
    ensures AbortVote(xt, self) <==> !Unopposed(xt.localVote, xt.peerVotes, self)
  {
    assert CountedPeers(xt, self) == xt.peerVotes.Keys - {self};
    if !Unopposed(xt.localVote, xt.peerVotes, self) && xt.localVote != Some(false) {
      var c :| c in xt.peerVotes && c != self && !xt.peerVotes[c];
      assert c in CountedPeers(xt, self);
    }
  }

  lemma VerdictOnVotes(xt: PendingXt, self: ChainId, d: bool)
    requires xt.decision.None?
    ensures Settle(xt, self).decision == Some(d) <==> SettledAs(xt.localVote, xt.peerVotes, self, |xt.rawTxs|, d)
  {
    VotesOnFields(xt, self);
    assert Verdict(xt, self).None? ==> Settle(xt, self) == xt;
  }

  /** An undecided XT is decided by the publisher's word, or by its votes, and by nothing else that names it. */
  lemma DecidedExactlyWhen(xt: PendingXt, self: ChainId, s: Step, d: bool)
    requires TouchesOne(s) && xt.decision.None?
    ensures Touch(xt, self, s).decision == Some(d) <==> DecidesAs(xt, self, s, d)
  {
    match s
    case HearPeerVote(_, chain, vote) => VerdictOnVotes(xt.(peerVotes := xt.peerVotes[chain := vote]), self, d);
    case LocalVote(_, vote, standalone) => VerdictOnVotes(CastVote(xt, self, vote), self, d);
    case RecordSimulation(_, deps, outbound) => TouchContinuesUndecided(xt, self, s);
    case _ =>
  }

  lemma TouchContinuesUndecided(xt: PendingXt, self: ChainId, s: Step)
    requires s.RecordSimulation?
    ensures Touch(xt, self, s).decision == xt.decision
  {
    RecordingTouchesNothingElse(xt, s.deps);
    OutboundTouchesNothingElse(RecordDependencies(xt, s.deps), s.outbound);
  }

  lemma TouchKeepsRest(xt: PendingXt, self: ChainId, s: Step)
    requires s.OnDecision? || s.HearPeerVote? || s.LocalVote?
    ensures var y := Touch(xt, self, s); y.id == xt.id && y.rawTxs == xt.rawTxs && y.box == xt.box
  {
  }

  /** A command that a step naming one XT may issue for it. */
  ghost predicate Ordered(xt: PendingXt, self: ChainId, s: Step, cmd: Command) {
    && xt.decision.None? && ActsLocally(xt, self) && cmd.id == xt.id && DecidesAs(xt, self, s, cmd.Release?)
    && (cmd.Release? ==> Picked(cmd.deps, xt.box.fulfilled, self))
  }

  lemma OrderedWhenDecided(xt: PendingXt, self: ChainId, s: Step)
    requires TouchesOne(s)
    ensures var cmd := CommandOnDecide(xt, Touch(xt, self, s), self);
            && (cmd.Some? ==> Ordered(xt, self, s, cmd.value))
            && (cmd.Some? <==> xt.decision.None? && ActsLocally(xt, self)
                               && exists d :: DecidesAs(xt, self, s, d))
  {
    TouchContinues(xt, self, s);
    if xt.decision.None? {
      DecidedExactlyWhen(xt, self, s, true);
      DecidedExactlyWhen(xt, self, s, false);
      assert (exists d :: DecidesAs(xt, self, s, d)) <==> DecidesAs(xt, self, s, true) || DecidesAs(xt, self, s, false);
      if s.OnDecision? || s.HearPeerVote? || s.LocalVote? { TouchKeepsRest(xt, self, s); }
      ReleaseCarries(xt.box.fulfilled, self);
    }
  }

  /**
    Which commands a step that names one XT hands to the builder: none, or the one
    its decision calls for, for an XT that was undecided and has local
    transactions.
   */
  lemma CommandsExactlyWhen(c: Coord, self: ChainId, s: Step)
    requires Keyed(c.pending) && TouchesOne(s)
    ensures var cmds := Commands(c, self, s);
            && (forall cmd :: cmd in cmds ==>
                  s.id in c.pending && cmd.id == s.id && Ordered(c.pending[s.id], self, s, cmd))
            && (cmds != {} <==>
                && s.id in c.pending && c.pending[s.id].decision.None? && ActsLocally(c.pending[s.id], self)
                && exists d :: DecidesAs(c.pending[s.id], self, s, d))
            && |cmds| <= 1
  {
    if s.id in c.pending { OrderedWhenDecided(c.pending[s.id], self, s); }
  }

  // ---------- A step that names one XT ----------

  /** Nothing but the named XT changes. */
  ghost predicate OnlyChanges(c: Coord, c': Coord, id: Id) {
    && c' == c.(pending := c'.pending) && c'.pending.Keys == c.pending.Keys
    && forall k :: k in c.pending && k != id ==> c'.pending[k] == c.pending[k]
  }

  lemma TouchChangesOne(c: Coord, self: ChainId, s: Step)
    requires TouchesOne(s)
    ensures OnlyChanges(c, Next(c, self, s), s.id)
    ensures s.id in c.pending ==> Next(c, self, s).pending[s.id] == Touch(c.pending[s.id], self, s)
  {
    if s.id in c.pending { TouchedState(c, self, s); }
  }

  /**
    The publisher's decision: an undecided XT is decided as told, and the builder is
    told to release or drop it when it has local transactions; a decided one stays.
   */
  lemma DecisionReceived(c: Coord, self: ChainId, id: Id, d: bool)
    requires Keyed(c.pending)
    ensures var c', cmds := Next(c, self, OnDecision(id, d)), Commands(c, self, OnDecision(id, d));
            && OnlyChanges(c, c', id)
            && (id in c.pending ==>
                  var x, y := c.pending[id], c'.pending[id];
                  && y == (if x.decision.None? then x.(decision := Some(d), decided := true) else x)
                  && (x.decision.None? && ActsLocally(x, self) ==>
                        if d then exists deps :: Picked(deps, x.box.fulfilled, self) && cmds == {Release(id, deps)}
                        else cmds == {AbortXt(id)})
                  && (x.decision.Some? || !ActsLocally(x, self) ==> cmds == {}))
            && (id !in c.pending ==> cmds == {})
  {
    var s := OnDecision(id, d);
    TouchChangesOne(c, self, s);
    if id in c.pending { ReleaseCarries(c.pending[id].box.fulfilled, self); }
  }

  /** The first local vote is recorded; only without a publisher may it decide. */
  lemma VoteCast(c: Coord, self: ChainId, id: Id, vote: bool, standalone: bool)
    ensures var c' := Next(c, self, LocalVote(id, vote, standalone));
            && OnlyChanges(c, c', id)
            && (id in c.pending ==>
                  var x, y := c.pending[id], c'.pending[id];
                  if x.localVote.Some? then y == x
                  else
                    && y == x.(localVote := Some(vote), voteSent := true, simulated := true,
                               locked := x.locked + {self}, decision := y.decision, decided := y.decided)
                    && (if x.decision.Some? || !standalone then y.decision == x.decision
                        else forall d :: y.decision == Some(d) <==>
                               SettledAs(Some(vote), x.peerVotes, self, |x.rawTxs|, d)))
  {
    var s := LocalVote(id, vote, standalone);
    TouchChangesOne(c, self, s);
    if id in c.pending && c.pending[id].decision.None? {
      DecidedExactlyWhen(c.pending[id], self, s, true);
      DecidedExactlyWhen(c.pending[id], self, s, false);
    }
  }

  /** The first vote of each peer is recorded on an undecided XT and may decide it. */
  lemma VoteHeard(c: Coord, self: ChainId, id: Id, chain: ChainId, vote: bool)
    ensures var c' := Next(c, self, HearPeerVote(id, chain, vote));
            && OnlyChanges(c, c', id)
            && (id in c.pending ==>
                  var x, y := c.pending[id], c'.pending[id];
                  if x.decision.Some? || chain in x.peerVotes then y == x
                  else
                    && y == x.(peerVotes := x.peerVotes[chain := vote], decision := y.decision, decided := y.decided)
                    && forall d :: y.decision == Some(d) <==>
                         SettledAs(x.localVote, x.peerVotes[chain := vote], self, |x.rawTxs|, d))
  {
    var s := HearPeerVote(id, chain, vote);
    TouchChangesOne(c, self, s);
    if id in c.pending && c.pending[id].decision.None? {
      DecidedExactlyWhen(c.pending[id], self, s, true);
      DecidedExactlyWhen(c.pending[id], self, s, false);
    }
  }

  /** The pipeline's own sections: the lock, the record of an answer, a pass and the marks of what was sent. */
  lemma PipelineSections(c: Coord, self: ChainId, s: Step)
    requires s.LockLocal? || s.RecordSimulation? || s.FulfilPass? || s.MarkSent?
    ensures var c' := Next(c, self, s);
            && OnlyChanges(c, c', s.id) && Commands(c, self, s) == {}
            && (s.id in c.pending ==>
                  var x, y := c.pending[s.id], c'.pending[s.id];
                  && (s.LockLocal? ==> y == x.(locked := x.locked + {self}))
                  && (s.MarkSent? ==> y == x.(sentKeys := x.sentKeys + s.keys))
                  && (s.FulfilPass? ==> y == x.(box := Fulfilment.Fulfil(x.box, s.deps)))
                  && (s.RecordSimulation? ==>
                        && y == x.(dependencies := y.dependencies, depKeys := y.depKeys, outbound := y.outbound)
                        && y.depKeys == x.depKeys + KeySet(s.deps) && x.dependencies <= y.dependencies
                        && OutboundKeys(y.outbound) == OutboundKeys(x.outbound) + OutboundKeys(s.outbound)
                        && x.outbound <= y.outbound))
  {
    TouchChangesOne(c, self, s);
    if s.id in c.pending {
      var x := c.pending[s.id];
      TouchContinues(x, self, s);
      if s.RecordSimulation? {
        RecordSection(x, s.deps, s.outbound);
      } else {
        assert Touch(x, self, s).decision == x.decision;
      }
    }
  }

  lemma RecordSection(x: PendingXt, deps: seq<Dependency>, outbound: seq<Outbound>)
    ensures var y := RecordOutbound(RecordDependencies(x, deps), outbound);
            && y == x.(dependencies := y.dependencies, depKeys := y.depKeys, outbound := y.outbound)
            && y.depKeys == x.depKeys + KeySet(deps) && x.dependencies <= y.dependencies
            && OutboundKeys(y.outbound) == OutboundKeys(x.outbound) + OutboundKeys(outbound)
            && x.outbound <= y.outbound
  {
    var x1 := RecordDependencies(x, deps);
    RecordingTouchesNothingElse(x, deps);
    OutboundTouchesNothingElse(x1, outbound);
    DependenciesRecorded(x, deps);
    OutboundRecorded(x1, outbound);
  }

  /** Registrations, messages, confirmations and removals give the builder no command. */
  lemma QuietSections(c: Coord, self: ChainId, s: Step)
    requires !TouchesOne(s) && !s.StartPeriod? && !s.Rollback?
    ensures Commands(c, self, s) == {}
  {
  }

  // ---------- The two sweeps ----------

  /** A publisher XT of a period before `p` that the builder has not included. */
  predicate OlderThan(xt: PendingXt, p: u64) {
    0 < xt.period < p && !xt.confirmed
  }

  /** Commands of a sweep: aborts for exactly the XTs that `told` names. */
  ghost predicate AbortsExactly(c: Coord, cmds: set<Command>, told: Id -> bool) {
    && (forall cmd :: cmd in cmds ==> cmd.AbortXt?)
    && forall id :: AbortXt(id) in cmds <==> id in c.pending && told(id)
  }

  /**
    A new period aborts exactly the undecided XTs of older periods that are not
    confirmed, and has the builder drop every one of them, or already aborted one,
    that has local transactions.
   */
  lemma PeriodStarted(c: Coord, self: ChainId, p: u64)
    requires Keyed(c.pending)
    ensures var c' := Next(c, self, StartPeriod(p));
            && c' == c.(pending := c'.pending, period := Admission.Period(Some(p), None))
            && c'.pending.Keys == c.pending.Keys
            && forall id :: id in c.pending ==>
                 c'.pending[id] == if c.pending[id].decision.None? && OlderThan(c.pending[id], p)
                                   then c.pending[id].(decision := Some(false), decided := true) else c.pending[id]
    ensures AbortsExactly(c, Commands(c, self, StartPeriod(p)), id =>
              && id in c.pending && OlderThan(c.pending[id], p)
              && c.pending[id].decision != Some(true) && ActsLocally(c.pending[id], self))
  {
    PeriodAborts(c, self, p);
  }

  lemma PeriodAborts(c: Coord, self: ChainId, p: u64)
    requires Keyed(c.pending)
    ensures AbortsExactly(c, Commands(c, self, StartPeriod(p)), id =>
              && id in c.pending && OlderThan(c.pending[id], p)
              && c.pending[id].decision != Some(true) && ActsLocally(c.pending[id], self))
  {
  }

  /** A rollback aborts every XT, committed ones included, drops buffered messages and closes the period. */
  lemma RolledBackAll(c: Coord, self: ChainId)
    requires Keyed(c.pending)
    ensures var c' := Next(c, self, Rollback);
            && c' == c.(pending := c'.pending, period := Admission.Period(None, None), buffer := map[])
            && c'.pending.Keys == c.pending.Keys
            && forall id :: id in c.pending ==>
                 && c'.pending[id].decision == Some(false)
                 && (c.pending[id].decision != Some(false) ==> c'.pending[id].decided)
                 && c'.pending[id] == c.pending[id].(decision := Some(false), decided := c'.pending[id].decided)
    ensures AbortsExactly(c, Commands(c, self, Rollback), id => id in c.pending && ActsLocally(c.pending[id], self))
  {
  }

  // ---------- Runs: older periods are settled ----------

  /** Every undecided XT that a publisher started and that is not confirmed is of the open period or a later one. */
  ghost predicate OlderSettled(c: Coord) {
    forall id :: id in c.pending && c.pending[id].decision.None? && !c.pending[id].confirmed
                 && c.pending[id].period != 0 ==>
      c.period.current.Some? && c.pending[id].period >= c.period.current.value
  }

  lemma TouchSettled(c: Coord, self: ChainId, s: Step)
    requires OlderSettled(c) && TouchesOne(s)
    ensures OlderSettled(Next(c, self, s))
  {
    TouchChangesOne(c, self, s);
    if s.id in c.pending { TouchContinues(c.pending[s.id], self, s); }
  }

  lemma RegistrationSettled(c: Coord, self: ChainId, s: Step)
    requires OlderSettled(c) && (s.Submit? || s.ForwardedXt? || s.StartInstance?)
    ensures OlderSettled(Next(c, self, s))
  {
    if s.Submit? {
      RegistrationCases(c, self, s, x => OlderSettled(x));
    } else if s.ForwardedXt? {
      RegistrationCases(c, self, s, x => OlderSettled(x));
    } else {
      assert Admission.Refusal(c.period, s.p, s.q).None? ==> c.period.current == Some(s.p);
    }
  }

  lemma OtherSettled(c: Coord, self: ChainId, s: Step)
    requires OlderSettled(c) && !TouchesOne(s) && !s.Submit? && !s.ForwardedXt? && !s.StartInstance?
    ensures OlderSettled(Next(c, self, s))
  {
    if s.RemovePending? || s.Cleanup? { RemovalCases(c, self, s, x => OlderSettled(x)); }
    else { BroadcastCases(c, self, s, x => OlderSettled(x)); }
  }

  /**
    In every reachable state no undecided XT belongs to a period before the open
    one, so right after a period starts every older one is settled.
   */
  lemma {:induction false} ReachableOlderSettled(self: ChainId, ss: seq<Step>)
    ensures OlderSettled(After(self, ss))
  {
    if ss != [] {
      ReachableOlderSettled(self, ss[..|ss| - 1]);
      var c, s := After(self, ss[..|ss| - 1]), ss[|ss| - 1];
      if TouchesOne(s) { TouchSettled(c, self, s); }
      else if s.Submit? || s.ForwardedXt? || s.StartInstance? { RegistrationSettled(c, self, s); }
      else { OtherSettled(c, self, s); }
    }
  }

  // ---------- Registrations ----------

  /** A new XT: no vote, no decision, nothing simulated, nothing sent. */
  ghost predicate Blank(x: PendingXt) {
    && !x.simulated && !x.decided && !x.confirmed && x.decision.None? && !x.voteSent && x.localVote.None?
    && x.peerVotes == map[] && x.sentKeys == {} && x.dependencies == [] && x.depKeys == {} && x.outbound == []
    && x.box.keys == {} && x.box.fulfilled == []
  }

  /** At least a hundred XTs are undecided. */
  ghost predicate AtCapacity(pending: map<Id, PendingXt>) {
    |set id | id in pending && pending[id].decision.None?| >= 100
  }

  /** `c'` is `c` with one more XT, indexed under its raw id, and nothing else new but what is named. */
  ghost predicate Adds(c: Coord, c': Coord, x: PendingXt) {
    && c'.pending == c.pending[x.id := x] && c'.index == c.index[x.rawId := x.id]
  }

  /** What a local submission stores, and when it is taken. */
  lemma SubmissionStored(c: Coord, self: ChainId, fp: Fingerprint, txs: map<ChainId, seq<Tx>>)
    ensures var c' := Next(c, self, Submit(fp, txs));
            var known := fp in c.fingerprints && c.fingerprints[fp] in c.pending;
            if known then c' == c
            else if AtCapacity(c.pending) then c' == c.(fingerprints := c.fingerprints - {fp})
            else
              var id := StandaloneId(self, c.originSeq + 1);
              && id in c'.pending && Adds(c, c', c'.pending[id]) && Blank(c'.pending[id])
              && c' == c.(pending := c'.pending, index := c'.index, originSeq := c.originSeq + 1,
                          fingerprints := c.fingerprints[fp := id])
              && var x := c'.pending[id];
              && x.id == x.rawId == id && x.period == 0 && x.sequence == 0 && x.rawTxs == txs
              && x.originChain == Some(self) && x.originSeq == c.originSeq + 1 && x.locked == {self}
              && x.box.pending == []
  {
  }

  lemma CleanOfNothing(txs: map<ChainId, seq<Tx>>)
    ensures Clean(txs) == map[] <==> forall k :: k in txs ==> txs[k] == []
  {
    if Clean(txs) == map[] {
      forall k | k in txs ensures txs[k] == [] {
        assert k !in Clean(txs);
      }
    }
  }

  /** What a forwarded XT stores, and when it is taken: chains without transactions are left out. */
  lemma ForwardStored(c: Coord, self: ChainId, id: Id, txs: map<ChainId, seq<Tx>>, origin: ChainId, n: nat)
    ensures var c' := Next(c, self, ForwardedXt(id, txs, origin, n));
            var nothing := forall k :: k in txs ==> txs[k] == [];
            if id == [] || nothing || id in c.pending || AtCapacity(c.pending) then c' == c
            else
              && id in c'.pending && Adds(c, c', c'.pending[id]) && Blank(c'.pending[id])
              && c' == c.(pending := c'.pending, index := c'.index, buffer := c.buffer - {id})
              && var x := c'.pending[id];
              && x.id == x.rawId == id && x.period == 0 && x.sequence == 0
              && (forall k :: k in x.rawTxs <==> k in txs && txs[k] != [])
              && (forall k :: k in x.rawTxs ==> x.rawTxs[k] == txs[k])
              && x.originChain == Some(origin) && x.originSeq == n
              && x.locked == (if self in txs && txs[self] != [] then {self} else {})
              && x.box.pending == if id in c.buffer then c.buffer[id] else []
  {
    CleanOfNothing(txs);
    DrainingAdds(c, NewForwarded(self, id, txs, origin, n));
  }

  /** A message for another period than the open one, or not past its last sequence number, is refused. */
  lemma RefusedExactlyWhen(s: Admission.Period, p: u64, q: u64)
    ensures Admission.Refusal(s, p, q).Some? <==>
            s.current != Some(p) || (s.lastSequence.Some? && q <= s.lastSequence.value)
  {
  }

  lemma DrainingAdds(c: Coord, xt: PendingXt)
    requires xt.box == Fulfilment.Box([], {}, [])
    ensures var c' := RegisterDraining(c, xt);
            && xt.id in c'.pending && Adds(c, c', c'.pending[xt.id])
            && c' == c.(pending := c'.pending, index := c'.index, buffer := c.buffer - {xt.rawId})
            && c'.pending[xt.id]
               == xt.(box := xt.box.(pending := if xt.rawId in c.buffer then c.buffer[xt.rawId] else []))
  {
    assert [] + Bucket(c.buffer, xt.rawId) == Bucket(c.buffer, xt.rawId);
  }

  /** What a publisher instance stores, and when it is taken: period and sequence number as announced. */
  lemma InstanceStored(c: Coord, self: ChainId, raw: bytes, p: u64, q: u64, txs: map<ChainId, seq<Tx>>)
    ensures var c', id := Next(c, self, StartInstance(raw, p, q, txs)), PublisherId(raw);
            var last := c.period.lastSequence;
            var late := c.period.current != Some(p) || (last.Some? && q <= last.value);
            if id in c.pending || AtCapacity(c.pending) || late then c' == c
            else
              && id in c'.pending && Adds(c, c', c'.pending[id]) && Blank(c'.pending[id])
              && c' == c.(pending := c'.pending, index := c'.index, buffer := c.buffer - {raw},
                          period := Admission.Period(Some(p), Some(q)))
              && var x := c'.pending[id];
              && x.id == id && x.rawId == raw && x.period == p && x.sequence == q && x.rawTxs == txs
              && x.originChain.None? && x.originSeq == 0
              && x.locked == (if self in txs && txs[self] != [] then {self} else {})
              && x.box.pending == if raw in c.buffer then c.buffer[raw] else []
  {
    RefusedExactlyWhen(c.period, p, q);
    DrainingAdds(c.(period := Admission.Period(Some(p), Some(q))), NewInstance(self, raw, p, q, txs));
  }

  // ---------- Messages and removals ----------

  /** A message joins the waiting ones of its XT; without an index entry it is buffered, within 1024 keys of 256. */
  lemma MessageStored(c: Coord, self: ChainId, m: Message)
    ensures var c', raw := Next(c, self, MailboxMessage(m)), m.instanceId;
            var waiting := if raw in c.buffer then c.buffer[raw] else [];
            if raw in c.index && c.index[raw] in c.pending then
              var x := c.pending[c.index[raw]];
              c' == c.(pending := c.pending[c.index[raw] := x.(box := x.box.(pending := x.box.pending + [m]))])
            else if raw in c.index || |waiting| >= 256 || (raw !in c.buffer && |c.buffer| >= 1024) then c' == c
            else c' == c.(buffer := c.buffer[raw := waiting + [m]])
  {
  }

  /** Included XTs are marked, no others. */
  lemma InclusionMarked(c: Coord, self: ChainId, ids: set<Id>)
    ensures var c' := Next(c, self, ConfirmIncluded(ids));
            && c' == c.(pending := c'.pending) && c'.pending.Keys == c.pending.Keys
            && forall id :: id in c.pending ==>
                 c'.pending[id] == if id in ids then c.pending[id].(confirmed := true) else c.pending[id]
  {
  }

  /** A removed XT takes its index entry and its fingerprints with it. */
  lemma RemovalDrops(c: Coord, self: ChainId, id: Id)
    ensures var c' := Next(c, self, RemovePending(id));
            if id !in c.pending then c' == c
            else
              && c' == c.(pending := c.pending - {id}, index := c.index - {c.pending[id].rawId},
                          fingerprints := c'.fingerprints)
              && c'.fingerprints.Keys == (set fp | fp in c.fingerprints && c.fingerprints[fp] != id)
              && forall fp :: fp in c'.fingerprints ==> c'.fingerprints[fp] == c.fingerprints[fp]
  {
  }

  /** A cleanup drops exactly the aged XTs that are confirmed or decided, and every bucket without an index entry. */
  lemma CleanupDrops(c: Coord, self: ChainId, aged: set<Id>)
    ensures var c' := Next(c, self, Cleanup(aged));
            && (forall id :: id in c'.pending <==>
                  id in c.pending && !(id in aged && (c.pending[id].confirmed || c.pending[id].decided)))
            && (forall id :: id in c'.pending ==> c'.pending[id] == c.pending[id])
            && (forall raw :: raw in c'.index <==>
                  raw in c.index && forall id :: id in c.pending && id !in c'.pending ==> c.pending[id].rawId != raw)
            && (forall raw :: raw in c'.index ==> c'.index[raw] == c.index[raw])
            && (forall raw :: raw in c'.buffer <==> raw in c.buffer && raw in c'.index)
            && (forall raw :: raw in c'.buffer ==> c'.buffer[raw] == c.buffer[raw])
            && (forall fp :: fp in c'.fingerprints <==> fp in c.fingerprints && c.fingerprints[fp] in c'.pending)
            && (forall fp :: fp in c'.fingerprints ==> c'.fingerprints[fp] == c.fingerprints[fp])
            && c'.period == c.period && c'.originSeq == c.originSeq
  {
  }
}
