/** How a decision may move, and how many releases it can cause. */
module Decisions {
  import opened Prelude
  import opened Xt
  import opened CoordState
  import opened CoordInvariants
  import opened StepLaws

  /** Undecided is below commit and abort; a rollback turns a commit into an abort. */
  predicate MayMove(before: Option<bool>, after: Option<bool>, rollback: bool) {
    || before == after
    || (before.None? && (rollback ==> after == Some(false)))
    || (rollback && after == Some(false))
  }

  /** The step is a submission that would mint `id`. */
  predicate Mints(c: Coord, self: ChainId, s: Step, id: Id) {
    s.Submit? && StandaloneId(self, c.originSeq + 1) == id
  }

  /** `y` is `x` with a decision that may have moved. */
  ghost predicate Follows(x: PendingXt, y: PendingXt, rollback: bool) {
    MayMove(x.decision, y.decision, rollback) && y.rawTxs == x.rawTxs && y.id == x.id
  }

  lemma RegistrationFollows(c: Coord, self: ChainId, s: Step, id: Id)
    requires s.Submit? || s.ForwardedXt? || s.StartInstance?
    requires id in c.pending && !Mints(c, self, s, id)
    ensures id in Next(c, self, s).pending && Next(c, self, s).pending[id] == c.pending[id]
  {
    RegistrationCases(c, self, s, (x: Coord) => id in x.pending && x.pending[id] == c.pending[id]);
  }

  lemma BroadcastFollows(c: Coord, self: ChainId, s: Step, id: Id)
    requires s.MailboxMessage? || s.StartPeriod? || s.Rollback? || s.ConfirmIncluded?
    requires id in c.pending
    ensures id in Next(c, self, s).pending && Follows(c.pending[id], Next(c, self, s).pending[id], s.Rollback?)
  {
  }

  lemma RemovalFollows(c: Coord, self: ChainId, s: Step, id: Id)
    requires s.RemovePending? || s.Cleanup?
    requires id in c.pending && id in Next(c, self, s).pending
    ensures Next(c, self, s).pending[id] == c.pending[id]
  {
  }

  /** Across all handlers a decision moves from none to commit or abort, or by rollback from commit to abort. */
  lemma DecisionOnlyMovesUp(c: Coord, self: ChainId, s: Step, id: Id)
    requires id in c.pending && id in Next(c, self, s).pending && !Mints(c, self, s, id)
    ensures Follows(c.pending[id], Next(c, self, s).pending[id], s.Rollback?)
  {
    if TouchesOne(s) {
      if s.id == id { TouchContinues(c.pending[id], self, s); }
    } else if s.Submit? || s.ForwardedXt? || s.StartInstance? {
      RegistrationFollows(c, self, s, id);
    } else if s.RemovePending? || s.Cleanup? {
      RemovalFollows(c, self, s, id);
    } else {
      BroadcastFollows(c, self, s, id);
    }
  }

  /** A release command is issued for `id` by this step. */
  ghost predicate Releases(c: Coord, self: ChainId, s: Step, id: Id) {
    exists deps :: Release(id, deps) in Commands(c, self, s)
  }

  lemma ReleaseOnTouch(xt: PendingXt, self: ChainId, s: Step)
    requires TouchesOne(s)
    ensures var cmd := CommandOnDecide(xt, Touch(xt, self, s), self);
            && (cmd.Some? ==> cmd.value.id == xt.id)
            && (cmd.Some? && cmd.value.Release? <==>
                xt.decision.None? && Touch(xt, self, s).decision == Some(true) && HasLocal(xt, self))
  {
    TouchContinues(xt, self, s);
  }

  lemma OnlyTouchesRelease(c: Coord, self: ChainId, s: Step, cmd: Command)
    requires !TouchesOne(s) && cmd in Commands(c, self, s)
    ensures cmd.AbortXt?
  {
  }

  lemma TouchCommands(c: Coord, self: ChainId, s: Step, cmd: Command)
    requires TouchesOne(s)
    ensures cmd in Commands(c, self, s) <==>
            s.id in c.pending && CommandOnDecide(c.pending[s.id], Touch(c.pending[s.id], self, s), self) == Some(cmd)
  {
  }

  lemma ReleaseOnTouchExactlyWhen(c: Coord, self: ChainId, s: Step, id: Id)
    requires Keyed(c.pending) && TouchesOne(s)
    ensures Releases(c, self, s, id) <==>
              && s.id == id && id in c.pending && c.pending[id].decision.None?
              && Touch(c.pending[id], self, s).decision == Some(true) && HasLocal(c.pending[id], self)
  {
    if s.id in c.pending {
      ReleaseOnTouch(c.pending[s.id], self, s);
      var cmd := CommandOnDecide(c.pending[s.id], Touch(c.pending[s.id], self, s), self);
      if cmd.Some? && cmd.value.Release? {
        TouchCommands(c, self, s, cmd.value);
        assert cmd.value == Release(s.id, cmd.value.deps);
      }
    }
    forall deps | Release(id, deps) in Commands(c, self, s) {
      TouchCommands(c, self, s, Release(id, deps));
    }
  }

  lemma NoReleaseElsewhere(c: Coord, self: ChainId, s: Step, id: Id)
    requires !TouchesOne(s)
    ensures !Releases(c, self, s, id)
  {
    forall deps | Release(id, deps) in Commands(c, self, s) ensures false {
      OnlyTouchesRelease(c, self, s, Release(id, deps));
    }
  }

  lemma TouchedEntry(c: Coord, self: ChainId, s: Step)
    requires TouchesOne(s) && s.id in c.pending
    ensures s.id in Next(c, self, s).pending && Next(c, self, s).pending[s.id] == Touch(c.pending[s.id], self, s)
  {
  }

  /**
    A release goes out exactly when the step names an undecided XT with local
    transactions and brings the publisher's commit, or the vote with which all
    expected votes are there and none is no.
   */
  lemma ReleaseExactlyOnCommit(c: Coord, self: ChainId, s: Step, id: Id)
    requires Keyed(c.pending)
    ensures Releases(c, self, s, id) <==>
              && TouchesOne(s) && s.id == id && id in c.pending && c.pending[id].decision.None?
              && ActsLocally(c.pending[id], self) && DecidesAs(c.pending[id], self, s, true)
  {
    if !TouchesOne(s) {
      NoReleaseElsewhere(c, self, s, id);
    } else {
      ReleaseOnTouchExactlyWhen(c, self, s, id);
      if s.id in c.pending && c.pending[s.id].decision.None? {
        DecidedExactlyWhen(c.pending[s.id], self, s, true);
      }
    }
  }

  /** The XT stays registered from step `i` to step `j` and its id is not minted again. */
  ghost predicate Stays(self: ChainId, ss: seq<Step>, i: nat, j: nat, id: Id)
    requires j <= |ss|
  {
    && (forall m :: i <= m <= j ==> id in After(self, ss[..m]).pending)
    && (forall m :: i <= m < j ==> !Mints(After(self, ss[..m]), self, ss[m], id))
  }

  ghost function DecisionAt(self: ChainId, ss: seq<Step>, id: Id, m: nat): Option<bool> {
    if m <= |ss| && id in After(self, ss[..m]).pending then After(self, ss[..m]).pending[id].decision else None
  }

  lemma StepDecided(self: ChainId, ss: seq<Step>, i: nat, j: nat, k: nat, id: Id)
    requires i <= k < j <= |ss| && Stays(self, ss, i, j, id)
    ensures DecisionAt(self, ss, id, k).Some? ==> DecisionAt(self, ss, id, k + 1).Some?
    ensures DecisionAt(self, ss, id, k) == Some(false) ==> DecisionAt(self, ss, id, k + 1) == Some(false)
  {
    AfterNext(self, ss, k);
    DecisionOnlyMovesUp(After(self, ss[..k]), self, ss[k], id);
  }

  /** Anything that keeps decisions from one point to the next keeps them over a stretch. */
  lemma {:induction false} KeptOverStretch(decision: nat -> Option<bool>, i: nat, j: nat)
    requires i <= j
    requires forall m: nat :: i <= m < j && decision(m).Some? ==> decision(m + 1).Some?
    requires forall m: nat :: i <= m < j && decision(m) == Some(false) ==> decision(m + 1) == Some(false)
    ensures decision(i).Some? ==> decision(j).Some?
    ensures decision(i) == Some(false) ==> decision(j) == Some(false)
    decreases j
  {
    if i < j {
      KeptOverStretch(decision, i, j - 1);
      assert decision(j - 1 + 1) == decision(j);
    }
  }

  lemma StaysDecided(self: ChainId, ss: seq<Step>, i: nat, j: nat, id: Id)
    requires i <= j <= |ss| && Stays(self, ss, i, j, id)
    ensures DecisionAt(self, ss, id, i).Some? ==> DecisionAt(self, ss, id, j).Some?
    ensures DecisionAt(self, ss, id, i) == Some(false) ==> DecisionAt(self, ss, id, j) == Some(false)
  {
    forall m: nat | i <= m < j
      ensures DecisionAt(self, ss, id, m).Some? ==> DecisionAt(self, ss, id, m + 1).Some?
      ensures DecisionAt(self, ss, id, m) == Some(false) ==> DecisionAt(self, ss, id, m + 1) == Some(false)
    {
      StepDecided(self, ss, i, j, m, id);
    }
    KeptOverStretch((m: nat) => DecisionAt(self, ss, id, m), i, j);
  }

  /** Per registration at most one release is issued, and none once a decision, abort included, is on record. */
  lemma AtMostOneRelease(self: ChainId, ss: seq<Step>, i: nat, j: nat, id: Id)
    requires i <= j < |ss| && Stays(self, ss, i, j, id)
    ensures i < j && Releases(After(self, ss[..i]), self, ss[i], id) ==>
            !Releases(After(self, ss[..j]), self, ss[j], id)
    ensures After(self, ss[..i]).pending[id].decision.Some? ==> !Releases(After(self, ss[..j]), self, ss[j], id)
  {
    ReachableIsKeyed(self, ss[..i]);
    ReachableIsKeyed(self, ss[..j]);
    ReleaseExactlyOnCommit(After(self, ss[..i]), self, ss[i], id);
    ReleaseExactlyOnCommit(After(self, ss[..j]), self, ss[j], id);
    if After(self, ss[..i]).pending[id].decision.Some? {
      StaysDecided(self, ss, i, j, id);
    } else if i < j && Releases(After(self, ss[..i]), self, ss[i], id) {
      AfterNext(self, ss, i);
      DecidedExactlyWhen(After(self, ss[..i]).pending[id], self, ss[i], true);
      TouchedEntry(After(self, ss[..i]), self, ss[i]);
      StaysDecided(self, ss, i + 1, j, id);
    }
  }
}
