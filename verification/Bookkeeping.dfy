/** The record each XT keeps of its votes, discovered dependencies and fulfilled dependencies, over whole runs. */
module Bookkeeping {
  import opened Prelude
  import opened Matching
  import opened Xt
  import opened CoordState
  import opened CoordInvariants
  import opened Decisions

  // ---------- What holds whatever the steps are ----------

  ghost predicate XtSound(xt: PendingXt) {
    Deduped(xt) && VoteFieldsAgree(xt)
  }

  ghost predicate XtsSound(pending: map<Id, PendingXt>) {
    forall id :: id in pending ==> XtSound(pending[id])
  }

  lemma SettledBooks(xt: PendingXt, self: ChainId)
    ensures SameBooks(xt, Settle(xt, self))
    ensures VoteFieldsAgree(xt) ==> VoteFieldsAgree(Settle(xt, self))
  {
  }

  lemma VoteTouch(xt: PendingXt, self: ChainId, s: Step)
    requires TouchesOne(s) && !s.RecordSimulation? && !s.FulfilPass?
    ensures SameBooks(xt, Touch(xt, self, s))
    ensures VoteFieldsAgree(xt) ==> VoteFieldsAgree(Touch(xt, self, s))
  {
    if s.LocalVote? {
      SettledBooks(CastVote(xt, self, s.vote), self);
    } else if s.HearPeerVote? {
      SettledBooks(xt.(peerVotes := xt.peerVotes[s.chain := s.vote]), self);
    }
  }

  lemma RecordingTouch(xt: PendingXt, deps: seq<Dependency>, outbound: seq<Outbound>)
    requires XtSound(xt)
    ensures var x := RecordOutbound(RecordDependencies(xt, deps), outbound);
            XtSound(x) && x.depKeys == xt.depKeys + KeySet(deps) && x.box == xt.box
  {
    var x1 := RecordDependencies(xt, deps);
    RecordingKeepsBooks(xt, deps);
    RecordingTouchesNothingElse(xt, deps);
    OutboundTouchesNothingElse(x1, outbound);
    BooksCarryOver(x1, RecordOutbound(x1, outbound));
  }

  /** What a step may do to the keys of one XT. */
  ghost predicate KeysMove(x: PendingXt, y: PendingXt, s: Step) {
    && x.depKeys <= y.depKeys
    && y.box.keys <= x.box.keys + if s.FulfilPass? then KeySet(s.deps) else {}
  }

  lemma TouchSound(xt: PendingXt, self: ChainId, s: Step)
    requires TouchesOne(s) && XtSound(xt)
    ensures XtSound(Touch(xt, self, s)) && KeysMove(xt, Touch(xt, self, s), s)
    ensures s.RecordSimulation? ==> KeySet(s.deps) <= Touch(xt, self, s).depKeys
  {
    if s.RecordSimulation? {
      RecordingTouch(xt, s.deps, s.outbound);
    } else if s.FulfilPass? {
      FulfilmentKeepsBooks(xt, s.deps);
    } else {
      VoteTouch(xt, self, s);
      BooksCarryOver(xt, Touch(xt, self, s));
    }
  }

  lemma FreshSound(xt: PendingXt)
    requires xt == NewXt(xt.id, xt.rawId).(period := xt.period, sequence := xt.sequence, rawTxs := xt.rawTxs,
                                           locked := xt.locked, originChain := xt.originChain,
                                           originSeq := xt.originSeq, box := xt.box)
    requires xt.box.keys == {} && xt.box.fulfilled == []
    ensures XtSound(xt)
  {
  }

  /** A registration adds an XT without books and leaves the others alone. */
  ghost predicate Registered(p: map<Id, PendingXt>, q: map<Id, PendingXt>) {
    forall id :: id in q ==> (id in p && q[id] == p[id]) || (XtSound(q[id]) && q[id].box.keys == {})
  }

  lemma RegistrationSound(c: Coord, self: ChainId, s: Step)
    requires s.Submit? || s.ForwardedXt? || s.StartInstance?
    ensures Registered(c.pending, Next(c, self, s).pending)
  {
    match s {
      case Submit(fp, txs) => FreshSound(NewSubmitted(self, StandaloneId(self, c.originSeq + 1), c.originSeq + 1, txs));
      case ForwardedXt(id, txs, origin, originSeq) =>
        var xt := NewForwarded(self, id, txs, origin, originSeq);
        FreshSound(xt.(box := xt.box.(pending := xt.box.pending + Bucket(c.buffer, xt.rawId))));
      case StartInstance(raw, p, q, txs) =>
        var xt := NewInstance(self, raw, p, q, txs);
        FreshSound(xt.(box := xt.box.(pending := xt.box.pending + Bucket(c.buffer, xt.rawId))));
    }
    RegistrationCases(c, self, s, (x: Coord) => Registered(c.pending, x.pending));
  }

  /** Sections that leave all books alone. */
  ghost predicate BooksStay(p: map<Id, PendingXt>, q: map<Id, PendingXt>) {
    forall id :: id in q ==> id in p && SameBooks(p[id], q[id]) && (VoteFieldsAgree(p[id]) ==> VoteFieldsAgree(q[id]))
  }

  lemma MailboxBooks(c: Coord, m: Message)
    ensures BooksStay(c.pending, MailboxSection(c, m).pending)
  {
    if m.instanceId in c.index && c.index[m.instanceId] in c.pending {
      var id := c.index[m.instanceId];
      var x := c.pending[id];
      PutBooks(c.pending, id, x.(box := x.box.(pending := x.box.pending + [m])));
    }
  }

  lemma PutBooks(p: map<Id, PendingXt>, id: Id, y: PendingXt)
    requires id in p && SameBooks(p[id], y) && (VoteFieldsAgree(p[id]) ==> VoteFieldsAgree(y))
    ensures BooksStay(p, p[id := y])
  {
  }

  lemma StartPeriodBooks(c: Coord, p: u64)
    ensures BooksStay(c.pending, StartPeriodSection(c, p).pending)
  {
  }

  lemma RollbackBooks(c: Coord)
    ensures BooksStay(c.pending, RollbackSection(c).pending)
  {
  }

  lemma ConfirmBooks(c: Coord, ids: set<Id>)
    ensures BooksStay(c.pending, ConfirmSection(c, ids).pending)
  {
  }

  lemma RemovalBooks(c: Coord, id: Id, aged: set<Id>)
    ensures BooksStay(c.pending, RemoveSection(c, id).pending) && BooksStay(c.pending, CleanupSection(c, aged).pending)
  {
  }

  lemma BroadcastBooks(c: Coord, self: ChainId, s: Step)
    requires s.MailboxMessage? || s.StartPeriod? || s.Rollback? || s.ConfirmIncluded?
    ensures BooksStay(c.pending, Next(c, self, s).pending)
  {
    match s {
      case MailboxMessage(m) => MailboxBooks(c, m);
      case StartPeriod(p) => StartPeriodBooks(c, p);
      case Rollback => RollbackBooks(c);
      case ConfirmIncluded(ids) => ConfirmBooks(c, ids);
    }
    BroadcastCases(c, self, s, (x: Coord) => BooksStay(c.pending, x.pending));
  }

  lemma OthersSound(c: Coord, self: ChainId, s: Step)
    requires !s.Submit? && !s.ForwardedXt? && !s.StartInstance? && !TouchesOne(s)
    ensures BooksStay(c.pending, Next(c, self, s).pending)
  {
    if s.RemovePending? {
      RemovalBooks(c, s.id, {});
      RemovalCases(c, self, s, (x: Coord) => BooksStay(c.pending, x.pending));
    } else if s.Cleanup? {
      RemovalBooks(c, [], s.aged);
      RemovalCases(c, self, s, (x: Coord) => BooksStay(c.pending, x.pending));
    } else {
      BroadcastBooks(c, self, s);
    }
  }

  lemma TouchedOnly(c: Coord, self: ChainId, s: Step, id: Id)
    requires TouchesOne(s) && id in Next(c, self, s).pending
    ensures id in c.pending
    ensures Next(c, self, s).pending[id] == if id == s.id then Touch(c.pending[id], self, s) else c.pending[id]
  {
    TouchCases(c, self, s, (x: Coord) =>
      id in x.pending ==>
          id in c.pending && x.pending[id] == if id == s.id then Touch(c.pending[id], self, s) else c.pending[id]);
  }

  ghost predicate NewOrMoved(c: Coord, y: PendingXt, s: Step, id: Id) {
    XtSound(y) && (y.box.keys == {} || (id in c.pending && KeysMove(c.pending[id], y, s)))
  }

  lemma RegistrationStep(c: Coord, self: ChainId, s: Step, id: Id)
    requires XtsSound(c.pending) && id in Next(c, self, s).pending && (s.Submit? || s.ForwardedXt? || s.StartInstance?)
    ensures NewOrMoved(c, Next(c, self, s).pending[id], s, id)
    ensures id in c.pending && !Mints(c, self, s, id) ==> KeysMove(c.pending[id], Next(c, self, s).pending[id], s)
  {
    RegistrationSound(c, self, s);
    if id in c.pending && !Mints(c, self, s, id) { RegistrationFollows(c, self, s, id); }
  }

  lemma TouchStep(c: Coord, self: ChainId, s: Step, id: Id)
    requires XtsSound(c.pending) && id in Next(c, self, s).pending && TouchesOne(s)
    ensures id in c.pending && XtSound(Next(c, self, s).pending[id])
    ensures KeysMove(c.pending[id], Next(c, self, s).pending[id], s)
  {
    TouchedOnly(c, self, s, id);
    if id == s.id { TouchSound(c.pending[id], self, s); }
  }

  lemma OtherStep(c: Coord, self: ChainId, s: Step, id: Id)
    requires XtsSound(c.pending) && id in Next(c, self, s).pending
    requires !s.Submit? && !s.ForwardedXt? && !s.StartInstance? && !TouchesOne(s)
    ensures id in c.pending && XtSound(Next(c, self, s).pending[id])
    ensures KeysMove(c.pending[id], Next(c, self, s).pending[id], s)
  {
    OthersSound(c, self, s);
    BooksCarryOver(c.pending[id], Next(c, self, s).pending[id]);
  }

  /** One step, one XT: it stays sound, and it is new or its keys move as they may. */
  lemma StepSound(c: Coord, self: ChainId, s: Step, id: Id)
    requires XtsSound(c.pending) && id in Next(c, self, s).pending
    ensures NewOrMoved(c, Next(c, self, s).pending[id], s, id)
    ensures id in c.pending && !Mints(c, self, s, id) ==> KeysMove(c.pending[id], Next(c, self, s).pending[id], s)
  {
    if s.Submit? || s.ForwardedXt? || s.StartInstance? { RegistrationStep(c, self, s, id); }
    else if TouchesOne(s) { TouchStep(c, self, s, id); }
    else { OtherStep(c, self, s, id); }
  }

  /** In every reachable state, whatever the steps, dedup sets match their lists and vote fields agree. */
  lemma {:induction false} ReachableXtsSound(self: ChainId, ss: seq<Step>)
    ensures XtsSound(After(self, ss).pending)
  {
    if ss != [] {
      var c, s := After(self, ss[..|ss| - 1]), ss[|ss| - 1];
      ReachableXtsSound(self, ss[..|ss| - 1]);
      forall id | id in After(self, ss).pending ensures XtSound(After(self, ss).pending[id]) {
        StepSound(c, self, s, id);
      }
    }
  }

  /**
    No reachable XT reports `waiting_circ` or `simulated`: the simulation
    timestamp is only ever set together with the vote.
   */
  lemma NeverWaitingCirc(self: ChainId, ss: seq<Step>, id: Id)
    requires id in After(self, ss).pending
    ensures DetermineStatus(After(self, ss).pending[id]) !in {WaitingCirc, Simulated}
  {
    ReachableXtsSound(self, ss);
  }

  /** What an XT of any run is reported as, told on its decision, its inclusion, its vote and its locks. */
  lemma StatusExactlyWhen(self: ChainId, ss: seq<Step>, id: Id)
    requires id in After(self, ss).pending
    ensures var x := After(self, ss).pending[id]; var status := DetermineStatus(x);
            && (status.Committed? <==> x.decision == Some(true) && x.confirmed)
            && (status.Aborted? <==> x.decision == Some(false))
            && (status.Voted? <==>
                (x.decision == Some(true) && !x.confirmed) || (x.decision.None? && x.localVote.Some?))
            && (status.Simulating? <==> x.decision.None? && x.localVote.None? && x.locked != {})
            && (status.Pending? <==> x.decision.None? && x.localVote.None? && x.locked == {})
  {
    ReachableXtsSound(self, ss);
    assert XtSound(After(self, ss).pending[id]);
  }

  // ---------- Passes after recordings ----------

  /** Step `j` recorded all the keys the pass at `k` asks for, and the XT stayed registered in between. */
  ghost predicate RecordedAt(self: ChainId, ss: seq<Step>, j: nat, k: nat) {
    && j < k < |ss| && ss[j].RecordSimulation? && ss[k].FulfilPass? && ss[j].id == ss[k].id
    && KeySet(ss[k].deps) <= KeySet(ss[j].deps) && Stays(self, ss, j, k, ss[k].id)
  }

  /** The order of the pipeline: it records the dependencies of a simulation before it asks for them. */
  ghost predicate RecordsBeforePasses(self: ChainId, ss: seq<Step>) {
    forall k :: 0 <= k < |ss| && ss[k].FulfilPass? && ss[k].id in After(self, ss[..k]).pending ==>
      exists j :: 0 <= j < k && RecordedAt(self, ss, j, k)
  }

  lemma StepKeysGrow(self: ChainId, ss: seq<Step>, k: nat, id: Id)
    requires k < |ss| && id in After(self, ss[..k]).pending && id in After(self, ss[..k + 1]).pending
    requires !Mints(After(self, ss[..k]), self, ss[k], id)
    ensures After(self, ss[..k]).pending[id].depKeys <= After(self, ss[..k + 1]).pending[id].depKeys
  {
    AfterNext(self, ss, k);
    ReachableXtsSound(self, ss[..k]);
    StepSound(After(self, ss[..k]), self, ss[k], id);
  }

  lemma {:induction false} GrowsOverStretch(keys: nat -> set<DependencyKey>, i: nat, j: nat)
    requires i <= j && forall k: nat :: i <= k < j ==> keys(k) <= keys(k + 1)
    ensures keys(i) <= keys(j)
    decreases j
  {
    if i < j {
      GrowsOverStretch(keys, i, j - 1);
      assert keys(j - 1) <= keys(j - 1 + 1);
    }
  }

  /** While an XT stays registered, no discovered key is forgotten. */
  lemma DepKeysGrow(self: ChainId, ss: seq<Step>, i: nat, j: nat, id: Id)
    requires i <= j <= |ss| && Stays(self, ss, i, j, id)
    ensures After(self, ss[..i]).pending[id].depKeys <= After(self, ss[..j]).pending[id].depKeys
  {
    var keys := (m: nat) =>
      if m <= |ss| && id in After(self, ss[..m]).pending then After(self, ss[..m]).pending[id].depKeys else {};
    forall k: nat | i <= k < j ensures keys(k) <= keys(k + 1) {
      StepKeysGrow(self, ss, k, id);
    }
    GrowsOverStretch(keys, i, j);
  }

  lemma RecordedKeys(self: ChainId, ss: seq<Step>, j: nat, id: Id)
    requires j < |ss| && ss[j].RecordSimulation? && ss[j].id == id && id in After(self, ss[..j]).pending
    ensures id in After(self, ss[..j + 1]).pending && KeySet(ss[j].deps) <= After(self, ss[..j + 1]).pending[id].depKeys
  {
    AfterNext(self, ss, j);
    ReachableXtsSound(self, ss[..j]);
    TouchSound(After(self, ss[..j]).pending[id], self, ss[j]);
    TouchedEntry(After(self, ss[..j]), self, ss[j]);
  }

  lemma StaysShorter(self: ChainId, ss: seq<Step>, i: nat, j: nat, id: Id)
    requires i < j <= |ss| && Stays(self, ss, i, j, id)
    ensures Stays(self, ss, i + 1, j, id) && id in After(self, ss[..i]).pending && id in After(self, ss[..j]).pending
  {
  }

  lemma RecordedStays(self: ChainId, ss: seq<Step>, j: nat, k: nat)
    requires RecordedAt(self, ss, j, k)
    ensures ss[k].id in After(self, ss[..k]).pending
    ensures KeySet(ss[k].deps) <= After(self, ss[..k]).pending[ss[k].id].depKeys
  {
    StaysShorter(self, ss, j, k, ss[k].id);
    RecordedKeys(self, ss, j, ss[k].id);
    DepKeysGrow(self, ss, j + 1, k, ss[k].id);
  }

  /** A pass in pipeline order asks for recorded keys only. */
  lemma PassKeysRecorded(self: ChainId, ss: seq<Step>, k: nat)
    requires RecordsBeforePasses(self, ss) && k < |ss| && ss[k].FulfilPass? && ss[k].id in After(self, ss[..k]).pending
    ensures KeySet(ss[k].deps) <= After(self, ss[..k]).pending[ss[k].id].depKeys
  {
    var j: nat :| j < k && RecordedAt(self, ss, j, k);
    RecordedStays(self, ss, j, k);
  }

  lemma RecordedInPrefix(self: ChainId, ss: seq<Step>, n: nat, j: nat, k: nat)
    requires RecordedAt(self, ss, j, k) && k < n <= |ss|
    ensures RecordedAt(self, ss[..n], j, k)
  {
    forall m | j <= m <= k ensures ss[..n][..m] == ss[..m] {
    }
  }

  lemma PrefixRecords(self: ChainId, ss: seq<Step>)
    requires RecordsBeforePasses(self, ss) && ss != []
    ensures RecordsBeforePasses(self, ss[..|ss| - 1])
  {
    var n := |ss| - 1;
    var pre := ss[..n];
    forall k | 0 <= k < n && pre[k].FulfilPass? && pre[k].id in After(self, pre[..k]).pending
      ensures exists j :: 0 <= j < k && RecordedAt(self, pre, j, k)
    {
      assert pre[..k] == ss[..k];
      var j :| 0 <= j < k && RecordedAt(self, ss, j, k);
      RecordedInPrefix(self, ss, n, j, k);
    }
  }

  /** In every reachable state of a pipeline-ordered run, only discovered keys are fulfilled. */
  lemma {:induction false} ReachableIsBookkept(self: ChainId, ss: seq<Step>)
    requires RecordsBeforePasses(self, ss)
    ensures forall id :: id in After(self, ss).pending ==> Bookkept(After(self, ss).pending[id])
  {
    ReachableXtsSound(self, ss);
    if ss != [] {
      var k := |ss| - 1;
      PrefixRecords(self, ss);
      ReachableIsBookkept(self, ss[..k]);
      if ss[k].FulfilPass? && ss[k].id in After(self, ss[..k]).pending { PassKeysRecorded(self, ss, k); }
      forall id | id in After(self, ss).pending ensures Bookkept(After(self, ss).pending[id]) {
        KeysStayCovered(self, ss, id);
      }
    }
  }

  lemma KeysStayCovered(self: ChainId, ss: seq<Step>, id: Id)
    requires ss != [] && id in After(self, ss).pending
    requires var c, s := After(self, ss[..|ss| - 1]), ss[|ss| - 1];
             && (id in c.pending ==> c.pending[id].box.keys <= c.pending[id].depKeys)
             && (s.FulfilPass? && s.id in c.pending ==> KeySet(s.deps) <= c.pending[s.id].depKeys)
    ensures After(self, ss).pending[id].box.keys <= After(self, ss).pending[id].depKeys
  {
    var c, s := After(self, ss[..|ss| - 1]), ss[|ss| - 1];
    ReachableXtsSound(self, ss[..|ss| - 1]);
    StepSound(c, self, s, id);
    if s.FulfilPass? && id != s.id { TouchedOnly(c, self, s, id); }
  }

  /** In every reachable XT of such a run, comparing the list lengths means "some dependency is unfulfilled". */
  lemma ReachableLengthsTell(self: ChainId, ss: seq<Step>, id: Id)
    requires RecordsBeforePasses(self, ss) && id in After(self, ss).pending
    ensures var xt := After(self, ss).pending[id];
            |xt.box.fulfilled| < |xt.dependencies| <==> exists d :: d in xt.dependencies && KeyOf(d) !in xt.box.keys
  {
    ReachableIsBookkept(self, ss);
    LengthsTellUnfulfilled(After(self, ss).pending[id]);
  }
}
