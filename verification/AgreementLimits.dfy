/** Which submissions all runs agree on, and the runs that disagree on the others. */
module AgreementLimits {
  import opened Prelude
  import opened Xt
  import opened CoordState
  import opened Agreement

  // ---------- Steps of a constructed run ----------

  lemma RunAppend(cfg: Config, id: Id, steps: seq<Action>, s: Action)
    requires cfg.origin in cfg.members
    ensures Run(cfg, id, steps + [s]) == Agreement.After(cfg, id, Run(cfg, id, steps), s)
  {
    assert (steps + [s])[..|steps + [s]| - 1] == steps;
  }

  /** An undecided XT that has not voted itself and holds a yes vote of exactly the chains in `yes`. */
  ghost predicate Backed(x: PendingXt, b: ChainId, yes: set<ChainId>) {
    && x.decision.None? && x.localVote.None? && b !in yes
    && x.peerVotes.Keys == yes && forall c :: c in yes ==> x.peerVotes[c]
  }

  lemma BackedPeers(x: PendingXt, b: ChainId, yes: set<ChainId>)
    requires Backed(x, b, yes)
    ensures CountedPeers(x, b) == yes && !AbortVote(x, b)
  {
    assert CountedPeers(x, b) == yes;
  }

  /** One more yes vote, which may be the last one needed. */
  lemma OneMoreYes(x: PendingXt, b: ChainId, yes: set<ChainId>, c: ChainId)
    requires Backed(x, b, yes) && c !in yes && c != b && |yes| < |x.rawTxs|
    ensures var x' := PeerVote(x, b, c, true);
            && x'.rawTxs == x.rawTxs && x'.localVote.None?
            && (if |yes| + 1 < |x.rawTxs| then Backed(x', b, yes + {c}) else x'.decision == Some(true))
  {
    var heard := x.(peerVotes := x.peerVotes[c := true]);
    assert Backed(heard, b, yes + {c});
    BackedPeers(heard, b, yes + {c});
  }

  lemma LastYes(x: PendingXt, b: ChainId, yes: set<ChainId>)
    requires Backed(x, b, yes) && |yes| + 1 == |x.rawTxs|
    ensures SendVote(x, b, true, true).decision == Some(true)
  {
    var cast := CastVote(x, b, true);
    assert CountedPeers(cast, b) == yes;
  }

  /** Delivering a yes vote changes the view of its receiver only. */
  lemma HearYes(cfg: Config, id: Id, steps: seq<Action>, b: ChainId, x: PendingXt, yes: set<ChainId>, c: ChainId)
    requires cfg.origin in cfg.members && Backed(x, b, yes) && c !in yes && c != b && |yes| < |x.rawTxs|
    requires var n := Run(cfg, id, steps); b in n.views && n.views[b] == Known(x) && Ballot(c, true) in n.sent
    ensures var n, x' := Run(cfg, id, steps), PeerVote(x, b, c, true);
            && Run(cfg, id, steps + [Deliver(b, Ballot(c, true))]) == n.(views := n.views[b := Known(x')])
            && x'.rawTxs == x.rawTxs && x'.localVote.None?
            && (if |yes| + 1 < |x.rawTxs| then Backed(x', b, yes + {c}) else x'.decision == Some(true))
  {
    OneMoreYes(x, b, yes, c);
    RunAppend(cfg, id, steps, Deliver(b, Ballot(c, true)));
  }

  // ---------- A sidecar is backed while the origin aborts ----------

  /** Participants that can still vote yes, besides `b`, after the origin voted no. */
  function Backers(cfg: Config, b: ChainId): set<ChainId> {
    Participants(cfg) - {b, cfg.origin}
  }

  lemma BackersCount(cfg: Config, b: ChainId)
    requires b != cfg.origin
    ensures |Participants(cfg)| == |Backers(cfg, b)| + (if b in Participants(cfg) then 1 else 0)
                                   + (if cfg.origin in Participants(cfg) then 1 else 0)
  {
    var p := Participants(cfg);
    assert b in p ==> p == (p - {b}) + {b};
    assert b !in p ==> p - {b} == p;
    assert cfg.origin in p ==> p - {b} == Backers(cfg, b) + {cfg.origin};
    assert cfg.origin !in p ==> p - {b} == Backers(cfg, b);
  }

  /** A sidecar other than the origin, one of the two being a participant. */
  predicate Candidate(cfg: Config, b: ChainId) {
    b in cfg.members && b != cfg.origin && (b in Participants(cfg) || cfg.origin in Participants(cfg))
  }

  /** The origin voted no and aborted, `b` holds the yes votes of `yes`, and the other backers wait. */
  ghost predicate Midway(cfg: Config, n: Net, b: ChainId, yes: set<ChainId>) {
    && n.views.Keys == cfg.members && n.forwarded && b in n.views
    && Decided(n, cfg.origin, false) && Ballot(cfg.origin, false) in n.sent
    && (exists x :: BackedView(cfg, n, b, x, yes))
    && (forall c :: c in Backers(cfg, b) && c !in yes ==> c in n.views && n.views[c].Unknown?)
  }

  ghost predicate BackedView(cfg: Config, n: Net, b: ChainId, x: PendingXt, yes: set<ChainId>) {
    b in n.views && n.views[b] == Known(x) && x.rawTxs == Clean(cfg.txs) && Backed(x, b, yes)
  }

  lemma OpeningRun(cfg: Config, id: Id, b: ChainId) returns (steps: seq<Action>)
    requires Submittable(cfg) && Candidate(cfg, b)
    ensures Midway(cfg, Run(cfg, id, steps), b, {})
  {
    steps := [Submitting];
    RunAppend(cfg, id, [], Submitting);
    assert [] + [Submitting] == steps;
    RunAppend(cfg, id, steps, Vote(cfg.origin, false));
    steps := steps + [Vote(cfg.origin, false)];
    var n := Run(cfg, id, steps);
    assert n.views[cfg.origin].xt.decision == Some(false);
    RunAppend(cfg, id, steps, Forward(b));
    steps := steps + [Forward(b)];
    assert BackedView(cfg, Run(cfg, id, steps), b, NewForwarded(b, id, cfg.txs, cfg.origin, cfg.seqNum), {});
  }

  /** `c` registers the XT and votes yes; no other view changes. */
  lemma JoinAndVote(cfg: Config, id: Id, steps: seq<Action>, b: ChainId, yes: set<ChainId>, c: ChainId)
    returns (steps': seq<Action>)
    requires Submittable(cfg) && Candidate(cfg, b) && Midway(cfg, Run(cfg, id, steps), b, yes)
    requires c in Backers(cfg, b) - yes
    ensures var n, n' := Run(cfg, id, steps), Run(cfg, id, steps');
            && n'.sent == n.sent + {Ballot(c, true)} && n'.forwarded
            && n'.views.Keys == n.views.Keys && forall d :: d in n.views && d != c ==> n'.views[d] == n.views[d]
  {
    var n := Run(cfg, id, steps);
    var x := NewForwarded(c, id, cfg.txs, cfg.origin, cfg.seqNum);
    RunAppend(cfg, id, steps, Forward(c));
    assert Run(cfg, id, steps + [Forward(c)]) == n.(views := n.views[c := Known(x)]);
    RunAppend(cfg, id, steps + [Forward(c)], Vote(c, true));
    steps' := steps + [Forward(c)] + [Vote(c, true)];
    assert MayVote(cfg, x, c, true) && x.localVote.None?;
  }

  /** One more participant registers, votes yes and reaches `b`. */
  lemma BackOne(cfg: Config, id: Id, steps: seq<Action>, b: ChainId, yes: set<ChainId>, c: ChainId)
    returns (steps': seq<Action>)
    requires Submittable(cfg) && Candidate(cfg, b) && Midway(cfg, Run(cfg, id, steps), b, yes)
    requires yes <= Backers(cfg, b) && c in Backers(cfg, b) - yes
    ensures Midway(cfg, Run(cfg, id, steps'), b, yes + {c})
  {
    var x :| BackedView(cfg, Run(cfg, id, steps), b, x, yes);
    var joined := JoinAndVote(cfg, id, steps, b, yes, c);
    StillShort(cfg, b, yes + {c});
    HearYes(cfg, id, joined, b, x, yes, c);
    steps' := joined + [Deliver(b, Ballot(c, true))];
    assert BackedView(cfg, Run(cfg, id, steps'), b, PeerVote(x, b, c, true), yes + {c});
  }

  lemma StillShort(cfg: Config, b: ChainId, yes: set<ChainId>)
    requires Candidate(cfg, b) && yes <= Backers(cfg, b)
    ensures |yes| < |Clean(cfg.txs)|
  {
    BackersCount(cfg, b);
    SubsetCount(yes, Backers(cfg, b));
    assert |Clean(cfg.txs)| == |Participants(cfg)|;
  }

  lemma {:induction false} BackAll(cfg: Config, id: Id, steps: seq<Action>, b: ChainId, yes: set<ChainId>)
    returns (steps': seq<Action>)
    requires Submittable(cfg) && Candidate(cfg, b)
    requires Midway(cfg, Run(cfg, id, steps), b, yes) && yes <= Backers(cfg, b)
    ensures Midway(cfg, Run(cfg, id, steps'), b, Backers(cfg, b))
    decreases Backers(cfg, b) - yes
  {
    if yes == Backers(cfg, b) {
      steps' := steps;
    } else {
      var left := Backers(cfg, b) - yes;
      assert left != {};
      var c :| c in left;
      var s1 := BackOne(cfg, id, steps, b, yes, c);
      steps' := BackAll(cfg, id, s1, b, yes + {c});
    }
  }

  // ---------- How such a run ends ----------

  /** `b` casts the last vote it needs. */
  lemma VoteCommits(cfg: Config, id: Id, steps: seq<Action>, b: ChainId, x: PendingXt, yes: set<ChainId>)
    requires cfg.origin in cfg.members && b in Participants(cfg) && b != cfg.origin
    requires BackedView(cfg, Run(cfg, id, steps), b, x, yes) && |yes| + 1 == |Participants(cfg)|
    requires Decided(Run(cfg, id, steps), cfg.origin, false)
    ensures var n, n' := Run(cfg, id, steps), Run(cfg, id, steps + [Vote(b, true)]);
            Decided(n', b, true) && Decided(n', cfg.origin, false) && n.sent <= n'.sent
  {
    RunAppend(cfg, id, steps, Vote(b, true));
    assert |Clean(cfg.txs)| == |Participants(cfg)|;
    assert MayVote(cfg, x, b, true);
    LastYes(x, b, yes);
  }

  /** An origin without local transactions aborts while the participants can still commit. */
  lemma IdleOriginDisagrees(cfg: Config, id: Id) returns (steps: seq<Action>)
    requires Submittable(cfg) && cfg.origin !in Participants(cfg) && Participants(cfg) != {}
    ensures !Agree(Run(cfg, id, steps))
  {
    var b :| b in Participants(cfg);
    var s0 := OpeningRun(cfg, id, b);
    var s1 := BackAll(cfg, id, s0, b, {});
    var x :| BackedView(cfg, Run(cfg, id, s1), b, x, Backers(cfg, b));
    BackersCount(cfg, b);
    VoteCommits(cfg, id, s1, b, x, Backers(cfg, b));
    steps := s1 + [Vote(b, true)];
  }

  /** An outsider's yes vote reaches `b`. */
  lemma OutsideYes(cfg: Config, id: Id, steps: seq<Action>, b: ChainId, x: PendingXt, o: ChainId)
    returns (steps': seq<Action>)
    requires Submittable(cfg) && Candidate(cfg, b) && o in Outsiders(cfg)
    requires Midway(cfg, Run(cfg, id, steps), b, Backers(cfg, b))
    requires BackedView(cfg, Run(cfg, id, steps), b, x, Backers(cfg, b))
    ensures var n', x' := Run(cfg, id, steps'), PeerVote(x, b, o, true);
            && b in n'.views && n'.views[b] == Known(x') && x'.localVote.None?
            && Decided(n', cfg.origin, false) && Ballot(cfg.origin, false) in n'.sent
            && (if b in Participants(cfg) && cfg.origin in Participants(cfg)
                then BackedView(cfg, n', b, x', Backers(cfg, b) + {o}) else Decided(n', b, true))
  {
    RunAppend(cfg, id, steps, OutsideVote(o, true));
    var s1 := steps + [OutsideVote(o, true)];
    StillShort(cfg, b, Backers(cfg, b));
    BackersCount(cfg, b);
    assert |Clean(cfg.txs)| == |Participants(cfg)|;
    HearYes(cfg, id, s1, b, x, Backers(cfg, b), o);
    steps' := s1 + [Deliver(b, Ballot(o, true))];
  }

  lemma NoVoteFrom(cfg: Config, id: Id, steps: seq<Action>, b: ChainId)
    requires cfg.origin in cfg.members && b in Participants(cfg) && b in cfg.members
    requires var v := Run(cfg, id, steps).views[b]; !v.Unknown? && v.xt.localVote != Some(true)
    ensures !AllIn(cfg, Run(cfg, id, steps))
  {
    var n := Run(cfg, id, steps);
    RunKeepsInv(cfg, id, steps);
    assert Ballot(b, true) in n.sent ==> Backing(cfg, n, Ballot(b, true));
  }

  lemma OriginSaidNo(cfg: Config, id: Id, steps: seq<Action>)
    requires cfg.origin in cfg.members && cfg.origin in Participants(cfg)
    requires Ballot(cfg.origin, false) in Run(cfg, id, steps).sent
    ensures !AllIn(cfg, Run(cfg, id, steps))
  {
    OneVoteEach(cfg, id, steps, cfg.origin);
  }

  /** An outside vote completes the count: `b` commits without a participant's yes, and the origin has aborted. */
  lemma OutsideVoteCompletesCount(cfg: Config, id: Id, b: ChainId, o: ChainId) returns (steps: seq<Action>)
    requires Submittable(cfg) && Candidate(cfg, b) && o in Outsiders(cfg)
    ensures var n := Run(cfg, id, steps); Decided(n, b, true) && Decided(n, cfg.origin, false) && !AllIn(cfg, n)
  {
    var s0 := OpeningRun(cfg, id, b);
    var s1 := BackAll(cfg, id, s0, b, {});
    var x :| BackedView(cfg, Run(cfg, id, s1), b, x, Backers(cfg, b));
    steps := OutsideYes(cfg, id, s1, b, x, o);
    if cfg.origin !in Participants(cfg) {
      NoVoteFrom(cfg, id, steps, b);
    } else {
      if b in Participants(cfg) {
        BackersCount(cfg, b);
        VoteCommits(cfg, id, steps, b, PeerVote(x, b, o, true), Backers(cfg, b) + {o});
        steps := steps + [Vote(b, true)];
      }
      OriginSaidNo(cfg, id, steps);
    }
  }

  // ---------- A sidecar on its own ----------

  ghost predicate Alone(cfg: Config, n: Net, x: PendingXt, yes: set<ChainId>) {
    && cfg.origin in n.views && n.views[cfg.origin] == Known(x) && x.rawTxs == cfg.txs
    && Backed(x, cfg.origin, yes) && yes <= Outsiders(cfg)
  }

  /** The only sidecar collects `k` outside votes. */
  lemma {:induction false} OutsidersFill(cfg: Config, id: Id, k: nat) returns (steps: seq<Action>, yes: set<ChainId>)
    requires Submittable(cfg) && k < |cfg.txs| <= |Outsiders(cfg)|
    ensures |yes| == k && exists x :: Alone(cfg, Run(cfg, id, steps), x, yes)
  {
    if k == 0 {
      steps, yes := [] + [Submitting], {};
      RunAppend(cfg, id, [], Submitting);
      assert Alone(cfg, Run(cfg, id, steps), NewSubmitted(cfg.origin, id, cfg.seqNum, cfg.txs), {});
    } else {
      var pre, some := OutsidersFill(cfg, id, k - 1);
      var x :| Alone(cfg, Run(cfg, id, pre), x, some);
      SubsetCount(some, Outsiders(cfg));
      var o :| o in Outsiders(cfg) && o !in some;
      RunAppend(cfg, id, pre, OutsideVote(o, true));
      HearYes(cfg, id, pre + [OutsideVote(o, true)], cfg.origin, x, some, o);
      steps, yes := pre + [OutsideVote(o, true)] + [Deliver(cfg.origin, Ballot(o, true))], some + {o};
      assert Alone(cfg, Run(cfg, id, steps), PeerVote(x, cfg.origin, o, true), yes);
    }
  }

  lemma OutsidersCommit(cfg: Config, id: Id) returns (steps: seq<Action>)
    requires Submittable(cfg) && cfg.origin in Participants(cfg) && |cfg.txs| <= |Outsiders(cfg)|
    ensures var n := Run(cfg, id, steps); Decided(n, cfg.origin, true) && !AllIn(cfg, n)
  {
    var pre, some := OutsidersFill(cfg, id, |cfg.txs| - 1);
    var x :| Alone(cfg, Run(cfg, id, pre), x, some);
    SubsetCount(some, Outsiders(cfg));
    var o :| o in Outsiders(cfg) && o !in some;
    RunAppend(cfg, id, pre, OutsideVote(o, true));
    HearYes(cfg, id, pre + [OutsideVote(o, true)], cfg.origin, x, some, o);
    steps := pre + [OutsideVote(o, true)] + [Deliver(cfg.origin, Ballot(o, true))];
    NoVoteFrom(cfg, id, steps, cfg.origin);
  }

  // ---------- Exact conditions ----------

  lemma FindCandidate(cfg: Config) returns (b: ChainId)
    requires Submittable(cfg) && Participants(cfg) != {} && cfg.members != {cfg.origin}
    ensures Candidate(cfg, b)
  {
    if Participants(cfg) - {cfg.origin} != {} {
      b :| b in Participants(cfg) - {cfg.origin};
    } else {
      var p :| p in Participants(cfg);
      var others := cfg.members - {cfg.origin};
      assert others != {};
      b :| b in others;
    }
  }

  /** Commits rest on the yes votes of all participants. */
  ghost predicate Unanimous(cfg: Config, n: Net) {
    forall c :: Decided(n, c, true) ==> AllIn(cfg, n)
  }

  lemma FewOutsiders(cfg: Config, id: Id, steps: seq<Action>)
    requires cfg.members == {cfg.origin} && Participants(cfg) <= cfg.members && |Outsiders(cfg)| < |cfg.txs|
    ensures Unanimous(cfg, Run(cfg, id, steps))
  {
    var n := Run(cfg, id, steps);
    if Decided(n, cfg.origin, true) {
      DecisionsRestOnVotes(cfg, id, steps, cfg.origin);
      var ds :| ds <= Participants(cfg) + Outsiders(cfg) && AllYes(n.sent, ds, Expected(cfg, cfg.origin));
      if cfg.origin !in ds { SubsetCount(ds, Outsiders(cfg)); }
    }
  }

  lemma UnanimousWhen(cfg: Config, id: Id, steps: seq<Action>)
    requires Submittable(cfg)
    requires || Participants(cfg) == {} || Outsiders(cfg) == {}
             || (cfg.members == {cfg.origin} && |Outsiders(cfg)| < |cfg.txs|)
    ensures Unanimous(cfg, Run(cfg, id, steps))
  {
    if Participants(cfg) == {} {
    } else if Outsiders(cfg) == {} {
      forall c | Decided(Run(cfg, id, steps), c, true) ensures AllIn(cfg, Run(cfg, id, steps)) {
        CommitIsUnanimous(cfg, id, steps, c);
      }
    } else {
      FewOutsiders(cfg, id, steps);
    }
  }

  /**
    A sidecar counts votes without asking who cast them. Every commit of every run
    rests on the yes votes of all participants exactly when nobody takes part, no
    outsider votes, or the origin is on its own and outsiders are too few.
   */
  lemma UnanimousExactlyWhen(cfg: Config, id: Id)
    requires Submittable(cfg)
    ensures (forall steps :: Unanimous(cfg, Run(cfg, id, steps))) <==>
            || Participants(cfg) == {} || Outsiders(cfg) == {}
            || (cfg.members == {cfg.origin} && |Outsiders(cfg)| < |cfg.txs|)
  {
    if Participants(cfg) == {} || Outsiders(cfg) == {}
       || (cfg.members == {cfg.origin} && |Outsiders(cfg)| < |cfg.txs|) {
      forall steps ensures Unanimous(cfg, Run(cfg, id, steps)) { UnanimousWhen(cfg, id, steps); }
    } else if cfg.members == {cfg.origin} {
      var steps := OutsidersCommit(cfg, id);
      assert !Unanimous(cfg, Run(cfg, id, steps));
    } else {
      var b := FindCandidate(cfg);
      var o :| o in Outsiders(cfg);
      var steps := OutsideVoteCompletesCount(cfg, id, b, o);
      assert !Unanimous(cfg, Run(cfg, id, steps));
    }
  }

  lemma AgreesWhen(cfg: Config, id: Id, steps: seq<Action>)
    requires Submittable(cfg)
    requires || Participants(cfg) == {} || cfg.members == {cfg.origin}
             || (cfg.origin in Participants(cfg) && Outsiders(cfg) == {})
    ensures Agree(Run(cfg, id, steps))
  {
    if Participants(cfg) == {} { NoParticipantsAgree(cfg, id, steps); }
    else if cfg.members == {cfg.origin} { SoleMemberAgrees(cfg, id, steps); }
    else { ParticipatingOriginAgrees(cfg, id, steps); }
  }

  /**
    Standalone agreement holds in every run exactly when the submitting sidecar has
    transactions of its own in the XT and no outsider votes, or nobody takes part,
    or there is no other sidecar.
   */
  lemma AgreementExactlyWhen(cfg: Config, id: Id)
    requires Submittable(cfg)
    ensures (forall steps :: Agree(Run(cfg, id, steps))) <==>
            || Participants(cfg) == {} || cfg.members == {cfg.origin}
            || (cfg.origin in Participants(cfg) && Outsiders(cfg) == {})
  {
    if Participants(cfg) == {} || cfg.members == {cfg.origin}
       || (cfg.origin in Participants(cfg) && Outsiders(cfg) == {}) {
      forall steps ensures Agree(Run(cfg, id, steps)) { AgreesWhen(cfg, id, steps); }
    } else if cfg.origin !in Participants(cfg) {
      var steps := IdleOriginDisagrees(cfg, id);
    } else {
      var b := FindCandidate(cfg);
      var o :| o in Outsiders(cfg);
      var steps := OutsideVoteCompletesCount(cfg, id, b, o);
      assert !Agree(Run(cfg, id, steps));
    }
  }
}
