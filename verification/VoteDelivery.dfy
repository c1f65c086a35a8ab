/** When the exchange of votes ends in a decision. */
module VoteDelivery {
  import opened Prelude
  import opened Xt
  import opened CoordState
  import opened Agreement

  // ---------- Recorded votes and decisions ----------

  /** The recorded votes settle the XT: one is no, or as many as expected are there. */
  ghost predicate Settles(xt: PendingXt, self: ChainId) {
    AbortVote(xt, self) || 0 < |xt.rawTxs| <= Collected(xt, self)
  }

  ghost predicate Current(xt: PendingXt, self: ChainId) {
    xt.decision.Some? <==> Settles(xt, self)
  }

  lemma SettleCurrent(xt: PendingXt, self: ChainId)
    requires xt.decision.Some? ==> Settles(xt, self)
    ensures Current(Settle(xt, self), self)
  {
    var x := Settle(xt, self);
    assert x == xt.(decision := x.decision, decided := x.decided);
    assert CountedPeers(x, self) == CountedPeers(xt, self);
  }

  lemma CastCurrent(xt: PendingXt, self: ChainId, yes: bool)
    requires Current(xt, self) && xt.localVote.None?
    ensures Current(SendVote(xt, self, yes, true), self)
  {
    var cast := CastVote(xt, self, yes);
    assert CountedPeers(cast, self) == CountedPeers(xt, self);
    if xt.decision.None? { SettleCurrent(cast, self); }
  }

  lemma HearCurrent(xt: PendingXt, self: ChainId, voter: ChainId, yes: bool)
    requires Current(xt, self)
    ensures Current(PeerVote(xt, self, voter, yes), self)
  {
    if xt.decision.None? && voter !in xt.peerVotes {
      SettleCurrent(xt.(peerVotes := xt.peerVotes[voter := yes]), self);
    }
  }

  ghost predicate AllCurrent(n: Net) {
    forall c :: c in n.views && !n.views[c].Unknown? ==> Current(n.views[c].xt, c)
  }

  lemma NewCurrent(cfg: Config, id: Id, c: ChainId)
    ensures Current(NewSubmitted(c, id, cfg.seqNum, cfg.txs), c)
    ensures Current(NewForwarded(c, id, cfg.txs, cfg.origin, cfg.seqNum), c)
  {
    assert CountedPeers(NewSubmitted(c, id, cfg.seqNum, cfg.txs), c) == {};
    assert CountedPeers(NewForwarded(c, id, cfg.txs, cfg.origin, cfg.seqNum), c) == {};
  }

  lemma StepCurrent(cfg: Config, id: Id, n: Net, s: Action)
    requires AllCurrent(n)
    ensures AllCurrent(Agreement.After(cfg, id, n, s))
  {
    match s
    case Submitting => NewCurrent(cfg, id, cfg.origin);
    case Forward(c) => NewCurrent(cfg, id, c);
    case Vote(c, yes) =>
      if c in n.views && n.views[c].Known? && n.views[c].xt.localVote.None? { CastCurrent(n.views[c].xt, c, yes); }
    case OutsideVote(c, yes) =>
    case Deliver(c, b) =>
      if c in n.views && n.views[c].Known? { HearCurrent(n.views[c].xt, c, b.voter, b.yes); }
    case Remove(c) =>
  }

  /** In every run a registered sidecar has decided exactly when its recorded votes settle the XT. */
  lemma {:induction false} DecidedExactlyWhenSettled(cfg: Config, id: Id, steps: seq<Action>)
    requires cfg.origin in cfg.members
    ensures AllCurrent(Run(cfg, id, steps))
  {
    if steps != [] {
      DecidedExactlyWhenSettled(cfg, id, steps[..|steps| - 1]);
      StepCurrent(cfg, id, Run(cfg, id, steps[..|steps| - 1]), steps[|steps| - 1]);
    }
  }

  // ---------- Delivered votes are recorded ----------

  /** `c` has decided or has recorded the vote of `d`. */
  ghost predicate Heard(n: Net, c: ChainId, d: ChainId) {
    c in n.views && !n.views[c].Unknown? && (n.views[c].xt.decision.Some? || d in n.views[c].xt.peerVotes)
  }

  /** Step `k` of the run delivers a vote of `d` to the registered sidecar `c`. */
  ghost predicate DeliversAt(cfg: Config, id: Id, steps: seq<Action>, c: ChainId, d: ChainId, k: nat)
    requires cfg.origin in cfg.members
  {
    && k < |steps| && steps[k].Deliver? && steps[k].c == c && steps[k].ballot.voter == d
    && var n := Run(cfg, id, steps[..k]); steps[k].ballot in n.sent && c in n.views && n.views[c].Known?
  }

  ghost predicate Delivered(cfg: Config, id: Id, steps: seq<Action>, c: ChainId, d: ChainId)
    requires cfg.origin in cfg.members
  {
    exists k: nat :: DeliversAt(cfg, id, steps, c, d, k)
  }

  lemma HeardStays(cfg: Config, id: Id, n: Net, s: Action, c: ChainId, d: ChainId)
    requires Heard(n, c, d)
    ensures Heard(Agreement.After(cfg, id, n, s), c, d)
  {
  }

  lemma DeliveryHeard(cfg: Config, id: Id, n: Net, c: ChainId, b: Ballot)
    requires b in n.sent && c in n.views && n.views[c].Known?
    ensures Heard(Agreement.After(cfg, id, n, Deliver(c, b)), c, b.voter)
  {
  }

  lemma {:induction false} HeardUntil(cfg: Config, id: Id, steps: seq<Action>, c: ChainId, d: ChainId, k: nat)
    requires cfg.origin in cfg.members && DeliversAt(cfg, id, steps, c, d, k)
    ensures Heard(Run(cfg, id, steps), c, d)
    decreases |steps|
  {
    var pre := steps[..|steps| - 1];
    var n, s := Run(cfg, id, pre), steps[|pre|];
    if k < |pre| {
      assert pre[..k] == steps[..k];
      HeardUntil(cfg, id, pre, c, d, k);
      HeardStays(cfg, id, n, s, c, d);
    } else {
      DeliveryHeard(cfg, id, n, c, s.ballot);
    }
    assert Run(cfg, id, steps) == Agreement.After(cfg, id, n, s);
  }

  // ---------- Reaching a decision ----------

  /** The vote of every participant reached sidecar `c`, its own included. */
  ghost predicate AllDelivered(cfg: Config, id: Id, steps: seq<Action>, c: ChainId)
    requires cfg.origin in cfg.members
  {
    && (forall d :: d in Participants(cfg) && d != c ==> Delivered(cfg, id, steps, c, d))
    && (c in Participants(cfg) ==> exists v :: Ballot(c, v) in Run(cfg, id, steps).sent)
  }

  ghost predicate Registered(n: Net, c: ChainId) {
    c in n.views && !n.views[c].Unknown?
  }

  lemma OwnVoteRecorded(cfg: Config, n: Net, c: ChainId, v: bool)
    requires Inv(cfg, n) && Registered(n, c) && Ballot(c, v) in n.sent
    ensures n.views[c].xt.localVote == Some(v)
  {
    assert Backing(cfg, n, Ballot(c, v));
  }

  lemma AllRecorded(cfg: Config, id: Id, steps: seq<Action>, c: ChainId)
    requires cfg.origin in cfg.members && Registered(Run(cfg, id, steps), c) && AllDelivered(cfg, id, steps, c)
    requires Run(cfg, id, steps).views[c].xt.decision.None?
    ensures Collected(Run(cfg, id, steps).views[c].xt, c) >= |Participants(cfg)|
    ensures Participants(cfg) - {c} <= CountedPeers(Run(cfg, id, steps).views[c].xt, c)
  {
    var n := Run(cfg, id, steps);
    var xt := n.views[c].xt;
    RunKeepsInv(cfg, id, steps);
    forall d | d in Participants(cfg) - {c} ensures d in CountedPeers(xt, c) {
      var k: nat :| DeliversAt(cfg, id, steps, c, d, k);
      HeardUntil(cfg, id, steps, c, d, k);
    }
    SubsetCount(Participants(cfg) - {c}, CountedPeers(xt, c));
    if c in Participants(cfg) {
      var v :| Ballot(c, v) in n.sent;
      OwnVoteRecorded(cfg, n, c, v);
    }
  }

  lemma ExpectedVotes(cfg: Config, id: Id, steps: seq<Action>, c: ChainId)
    requires Submittable(cfg) && Registered(Run(cfg, id, steps), c)
    ensures |Run(cfg, id, steps).views[c].xt.rawTxs| == Expected(cfg, c) > 0
  {
    var n := Run(cfg, id, steps);
    RunKeepsInv(cfg, id, steps);
    assert ViewOk(cfg, n.sent, c, n.views[c].xt);
    assert |Clean(cfg.txs)| == |Participants(cfg)|;
  }

  /**
    A registered sidecar to which every participant's vote was delivered has
    decided, whatever else was lost, repeated or reordered. The submitting one is
    included when no chain was submitted with an empty list.
   */
  lemma AllDeliveredDecides(cfg: Config, id: Id, steps: seq<Action>, c: ChainId)
    requires Submittable(cfg) && Registered(Run(cfg, id, steps), c) && AllDelivered(cfg, id, steps, c)
    requires c == cfg.origin ==> |cfg.txs| == |Participants(cfg)|
    ensures Run(cfg, id, steps).views[c].xt.decision.Some?
  {
    var xt := Run(cfg, id, steps).views[c].xt;
    if xt.decision.None? {
      AllRecorded(cfg, id, steps, c);
      ExpectedVotes(cfg, id, steps, c);
      DecidedExactlyWhenSettled(cfg, id, steps);
      assert Current(xt, c) && Settles(xt, c);
    }
  }

  lemma NoVoteRecorded(cfg: Config, id: Id, steps: seq<Action>, d: ChainId)
    requires cfg.origin in cfg.members && Outsiders(cfg) == {} && Registered(Run(cfg, id, steps), cfg.origin)
    requires AllDelivered(cfg, id, steps, cfg.origin)
    requires d in Callers(cfg) && Ballot(d, false) in Run(cfg, id, steps).sent
    ensures var xt := Run(cfg, id, steps).views[cfg.origin].xt; xt.decision.Some? || AbortVote(xt, cfg.origin)
  {
    var n := Run(cfg, id, steps);
    var xt := n.views[cfg.origin].xt;
    RunKeepsInv(cfg, id, steps);
    assert ViewOk(cfg, n.sent, cfg.origin, xt);
    if d == cfg.origin {
      OwnVoteRecorded(cfg, n, d, false);
    } else if xt.decision.None? {
      AllRecorded(cfg, id, steps, cfg.origin);
      assert d in CountedPeers(xt, cfg.origin);
      OneVoteEach(cfg, id, steps, d);
    }
  }

  lemma NoVoteHeard(cfg: Config, id: Id, steps: seq<Action>)
    requires cfg.origin in cfg.members && Outsiders(cfg) == {} && Registered(Run(cfg, id, steps), cfg.origin)
    requires AllDelivered(cfg, id, steps, cfg.origin) && SomeNoVote(cfg, Run(cfg, id, steps))
    ensures Run(cfg, id, steps).views[cfg.origin].xt.decision.Some?
  {
    var n := Run(cfg, id, steps);
    var d :| d in Callers(cfg) && Ballot(d, false) in n.sent;
    NoVoteRecorded(cfg, id, steps, d);
    DecidedExactlyWhenSettled(cfg, id, steps);
    assert Current(n.views[cfg.origin].xt, cfg.origin);
  }

  /** A list with an empty entry makes the submitting sidecar wait for a vote that nobody casts: it never commits. */
  lemma EmptyListBlocksCommit(cfg: Config, id: Id, steps: seq<Action>)
    requires cfg.origin in cfg.members && |Participants(cfg) + Outsiders(cfg)| < |cfg.txs|
    ensures !Decided(Run(cfg, id, steps), cfg.origin, true)
  {
    var n := Run(cfg, id, steps);
    DecisionsRestOnVotes(cfg, id, steps, cfg.origin);
    if Decided(n, cfg.origin, true) {
      var ds :| ds <= Participants(cfg) + Outsiders(cfg) && AllYes(n.sent, ds, Expected(cfg, cfg.origin));
      SubsetCount(ds, Participants(cfg) + Outsiders(cfg));
    }
  }

  lemma OpenOtherwise(n: Net, c: ChainId)
    requires Registered(n, c) && !Decided(n, c, true) && !Decided(n, c, false)
    ensures n.views[c].xt.decision.None?
  {
    var decision := n.views[c].xt.decision;
    if decision.Some? { assert Decided(n, c, decision.value); }
  }

  lemma WithoutNoItWaits(cfg: Config, id: Id, steps: seq<Action>)
    requires cfg.origin in cfg.members && Outsiders(cfg) == {} && Registered(Run(cfg, id, steps), cfg.origin)
    requires |Participants(cfg)| < |cfg.txs| && !SomeNoVote(cfg, Run(cfg, id, steps))
    ensures Run(cfg, id, steps).views[cfg.origin].xt.decision.None?
  {
    var n := Run(cfg, id, steps);
    assert Participants(cfg) + Outsiders(cfg) == Participants(cfg);
    EmptyListBlocksCommit(cfg, id, steps);
    DecisionsRestOnVotes(cfg, id, steps, cfg.origin);
    OpenOtherwise(n, cfg.origin);
  }

  /**
    Once every participant's vote reached it, the submitting sidecar has decided
    exactly when no chain was submitted with an empty list or somebody voted no.
   */
  lemma OriginDecidesExactlyWhen(cfg: Config, id: Id, steps: seq<Action>)
    requires Submittable(cfg) && Outsiders(cfg) == {} && Registered(Run(cfg, id, steps), cfg.origin)
    requires AllDelivered(cfg, id, steps, cfg.origin)
    ensures Run(cfg, id, steps).views[cfg.origin].xt.decision.Some?
            <==> |cfg.txs| == |Participants(cfg)| || SomeNoVote(cfg, Run(cfg, id, steps))
  {
    CleanCount(cfg.txs);
    assert |Clean(cfg.txs)| == |Participants(cfg)|;
    if |cfg.txs| == |Participants(cfg)| {
      AllDeliveredDecides(cfg, id, steps, cfg.origin);
    } else if SomeNoVote(cfg, Run(cfg, id, steps)) {
      NoVoteHeard(cfg, id, steps);
    } else {
      WithoutNoItWaits(cfg, id, steps);
    }
  }
}
