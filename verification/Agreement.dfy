/**
  A network of publisher-less sidecars deciding one submitted XT by exchanging
  votes. Messages may be lost, duplicated and delivered in any order.
 */
module Agreement {
  import opened Prelude
  import opened Xt
  import opened CoordState

  /**
    One submission: the sidecar (named by its chain) that received it, the
    transactions submitted per chain, the chains that run a sidecar, and the chain
    ids under which votes arrive. A sidecar records a vote under any chain id.
   */
  datatype Config = Config(
    members: set<ChainId>, origin: ChainId, seqNum: nat, txs: map<ChainId, seq<Tx>>, voters: set<ChainId>)

  function Participants(cfg: Config): set<ChainId> {
    Clean(cfg.txs).Keys
  }

  /** Voters that run no sidecar, so nothing keeps them to one vote. */
  function Outsiders(cfg: Config): set<ChainId> {
    cfg.voters - cfg.members
  }

  /** The chains whose sidecar may start a simulation. */
  function Callers(cfg: Config): set<ChainId> {
    Participants(cfg) + {cfg.origin}
  }

  /** Submission accepts only XTs that name two chains; every participant runs a sidecar. */
  ghost predicate Submittable(cfg: Config) {
    |cfg.txs| >= 2 && cfg.origin in cfg.members && Participants(cfg) <= cfg.members
  }

  /** What one sidecar knows of the XT. A removed XT keeps its last value as history and is not registered again. */
  datatype View = Unknown | Known(xt: PendingXt) | Removed(xt: PendingXt)

  datatype Ballot = Ballot(voter: ChainId, yes: bool)

  datatype Net = Net(views: map<ChainId, View>, forwarded: bool, sent: set<Ballot>)

  datatype Action =
    | Submitting
    | Forward(c: ChainId)
    | Vote(c: ChainId, yes: bool)
    | OutsideVote(c: ChainId, yes: bool)
    | Deliver(c: ChainId, ballot: Ballot)
    | Remove(c: ChainId)

  // ---------- Steps ----------

  /**
    A local vote comes from the simulation pipeline. The origin always starts it, a
    peer only when it has local transactions; without local transactions the
    pipeline votes no.
   */
  predicate MayVote(cfg: Config, xt: PendingXt, c: ChainId, yes: bool) {
    && (c == cfg.origin || c in xt.rawTxs)
    && (yes ==> HasLocal(xt, c))
  }

  ghost function After(cfg: Config, id: Id, n: Net, s: Action): Net {
    match s
    case Submitting =>
      if cfg.origin in n.views && n.views[cfg.origin].Unknown?
          then n.(views := n.views[cfg.origin := Known(NewSubmitted(cfg.origin, id, cfg.seqNum, cfg.txs))],
              forwarded := true)
      else n
    case Forward(c) =>
      if n.forwarded && c in n.views && n.views[c].Unknown? && c != cfg.origin && Participants(cfg) != {} then
        n.(views := n.views[c := Known(NewForwarded(c, id, cfg.txs, cfg.origin, cfg.seqNum))])
      else n
    case Vote(c, yes) =>
      if c in n.views && n.views[c].Known? && MayVote(cfg, n.views[c].xt, c, yes) && n.views[c].xt.localVote.None? then
        n.(views := n.views[c := Known(SendVote(n.views[c].xt, c, yes, true))], sent := n.sent + {Ballot(c, yes)})
      else n
    case OutsideVote(c, yes) =>
      if c in Outsiders(cfg) then n.(sent := n.sent + {Ballot(c, yes)}) else n
    case Deliver(c, ballot) =>
      if ballot in n.sent && c in n.views && n.views[c].Known? then
        n.(views := n.views[c := Known(PeerVote(n.views[c].xt, c, ballot.voter, ballot.yes))])
      else n
    case Remove(c) =>
      if c in n.views && n.views[c].Known? then n.(views := n.views[c := Removed(n.views[c].xt)]) else n
  }

  ghost function Start(cfg: Config): Net {
    Net(map c | c in cfg.members :: Unknown, false, {})
  }

  ghost function Run(cfg: Config, id: Id, steps: seq<Action>): (n: Net)
    requires cfg.origin in cfg.members
    ensures n.views.Keys == cfg.members
  {
    if steps == [] then Start(cfg)
    else After(cfg, id, Run(cfg, id, steps[..|steps| - 1]), steps[|steps| - 1])
  }

  // ---------- What agreement means ----------

  predicate Decided(n: Net, c: ChainId, d: bool) {
    c in n.views && !n.views[c].Unknown? && n.views[c].xt.decision == Some(d)
  }

  ghost predicate Agree(n: Net) {
    forall c, c' :: Decided(n, c, true) ==> !Decided(n, c', false)
  }

  // ---------- Invariant ----------

  /** Every vote a sidecar has recorded was sent; a decision rests on votes that were sent. */
  ghost predicate ViewOk(cfg: Config, sent: set<Ballot>, c: ChainId, xt: PendingXt) {
    && xt.rawTxs == (if c == cfg.origin then cfg.txs else Clean(cfg.txs))
    && (xt.localVote.Some? ==> Ballot(c, xt.localVote.value) in sent)
    && (forall d :: d in xt.peerVotes ==> Ballot(d, xt.peerVotes[d]) in sent)
    && (xt.decision == Some(false) ==> exists d :: Ballot(d, false) in sent)
    && (xt.decision == Some(true) ==> exists ds :: AllYes(sent, ds, |xt.rawTxs|))
  }

  /** At least `k` distinct chains voted yes. */
  ghost predicate AllYes(sent: set<Ballot>, ds: set<ChainId>, k: nat) {
    |ds| >= k && forall d :: d in ds ==> Ballot(d, true) in sent
  }

  /** A ballot is an outsider's, or the one vote of a chain that may start a simulation; yes takes transactions. */
  ghost predicate Backing(cfg: Config, n: Net, b: Ballot) {
    || b.voter in Outsiders(cfg)
    || (&& b.voter in Callers(cfg) && (b.yes ==> b.voter in Participants(cfg))
        && b.voter in n.views && !n.views[b.voter].Unknown? && n.views[b.voter].xt.localVote == Some(b.yes))
  }

  ghost predicate Inv(cfg: Config, n: Net) {
    && n.views.Keys == cfg.members
    && (forall c :: c in n.views && !n.views[c].Unknown? ==> ViewOk(cfg, n.sent, c, n.views[c].xt))
    && (forall b :: b in n.sent ==> Backing(cfg, n, b))
    && (Participants(cfg) == {} ==> forall c :: c in n.views && c != cfg.origin ==> n.views[c].Unknown?)
  }

  lemma SettleOk(cfg: Config, n: Net, c: ChainId, xt: PendingXt)
    requires ViewOk(cfg, n.sent, c, xt) && xt.decision.None?
    ensures ViewOk(cfg, n.sent, c, Settle(xt, c))
    ensures Settle(xt, c) == xt.(decision := Settle(xt, c).decision, decided := Settle(xt, c).decided)
  {
    if Verdict(xt, c) == Some(false) {
      if xt.localVote == Some(false) {
        assert Ballot(c, false) in n.sent;
      } else {
        var d :| d in CountedPeers(xt, c) && !xt.peerVotes[d];
        assert Ballot(d, false) in n.sent;
      }
    } else if Verdict(xt, c) == Some(true) {
      var ds := CountedPeers(xt, c) + if xt.localVote.Some? then {c} else {};
      forall d | d in ds ensures Ballot(d, true) in n.sent {
        if d == c {
          assert xt.localVote.value;
        } else {
          assert xt.peerVotes[d];
        }
      }
      assert AllYes(n.sent, ds, |xt.rawTxs|);
    }
  }

  /** Sending more votes never unsettles a view. */
  lemma ViewOkMonotone(cfg: Config, n: Net, n': Net, c: ChainId, xt: PendingXt)
    requires ViewOk(cfg, n.sent, c, xt) && n.sent <= n'.sent
    ensures ViewOk(cfg, n'.sent, c, xt)
  {
    if xt.decision == Some(true) {
      var ds :| AllYes(n.sent, ds, |xt.rawTxs|);
      assert AllYes(n'.sent, ds, |xt.rawTxs|);
    }
  }

  /** Replacing one sidecar's view by a sound one, with new votes from that sidecar only, keeps the invariant. */
  lemma UpdateKeepsInv(cfg: Config, n: Net, n': Net, c: ChainId, x: PendingXt)
    requires Inv(cfg, n) && c in n.views && n.views[c].Known?
    requires n' == n.(views := n.views[c := Known(x)], sent := n'.sent) && n.sent <= n'.sent
    requires ViewOk(cfg, n'.sent, c, x) && (n.views[c].xt.localVote.Some? ==> x.localVote == n.views[c].xt.localVote)
    requires forall b :: b in n'.sent - n.sent ==> Backing(cfg, n', b)
    ensures Inv(cfg, n')
  {
    forall k | k in n'.views && !n'.views[k].Unknown? ensures ViewOk(cfg, n'.sent, k, n'.views[k].xt) {
      if k != c { ViewOkMonotone(cfg, n, n', k, n.views[k].xt); }
    }
    forall b | b in n'.sent ensures Backing(cfg, n', b) {
      if b in n.sent { assert Backing(cfg, n, b); }
    }
  }

  lemma VoteKeepsInv(cfg: Config, id: Id, n: Net, c: ChainId, yes: bool)
    requires Inv(cfg, n) && cfg.origin in cfg.members
    ensures Inv(cfg, After(cfg, id, n, Vote(c, yes)))
  {
    var n' := After(cfg, id, n, Vote(c, yes));
    if n' != n {
      var xt := n.views[c].xt;
      VoteCastOk(cfg, n, n', c, xt, yes);
      UpdateKeepsInv(cfg, n, n', c, SendVote(xt, c, yes, true));
    }
  }

  lemma VoteCastOk(cfg: Config, n: Net, n': Net, c: ChainId, xt: PendingXt, yes: bool)
    requires ViewOk(cfg, n.sent, c, xt) && xt.localVote.None? && n'.sent == n.sent + {Ballot(c, yes)}
    ensures SendVote(xt, c, yes, true).localVote == Some(yes)
    ensures ViewOk(cfg, n'.sent, c, SendVote(xt, c, yes, true))
  {
    var cast := CastVote(xt, c, yes);
    if xt.decision == Some(true) {
      var ds :| AllYes(n.sent, ds, |xt.rawTxs|);
      assert AllYes(n'.sent, ds, |xt.rawTxs|);
    }
    assert ViewOk(cfg, n'.sent, c, cast);
    if xt.decision.None? { SettleOk(cfg, n', c, cast); }
  }

  lemma PeerVoteOk(cfg: Config, n: Net, c: ChainId, xt: PendingXt, b: Ballot)
    requires ViewOk(cfg, n.sent, c, xt) && b in n.sent
    ensures ViewOk(cfg, n.sent, c, PeerVote(xt, c, b.voter, b.yes))
  {
    if xt.decision.None? && b.voter !in xt.peerVotes {
      var heard := xt.(peerVotes := xt.peerVotes[b.voter := b.yes]);
      assert ViewOk(cfg, n.sent, c, heard);
      SettleOk(cfg, n, c, heard);
    }
  }

  lemma DeliverKeepsInv(cfg: Config, id: Id, n: Net, c: ChainId, b: Ballot)
    requires Inv(cfg, n) && cfg.origin in cfg.members
    ensures Inv(cfg, After(cfg, id, n, Deliver(c, b)))
  {
    var n' := After(cfg, id, n, Deliver(c, b));
    if n' != n {
      PeerVoteOk(cfg, n, c, n.views[c].xt, b);
      UpdateKeepsInv(cfg, n, n', c, PeerVote(n.views[c].xt, c, b.voter, b.yes));
    }
  }

  lemma OtherStepsKeepInv(cfg: Config, id: Id, n: Net, s: Action)
    requires Inv(cfg, n) && cfg.origin in cfg.members && !s.Vote? && !s.Deliver?
    ensures Inv(cfg, After(cfg, id, n, s))
  {
    var n' := After(cfg, id, n, s);
    forall k | k in n'.views && !n'.views[k].Unknown? ensures ViewOk(cfg, n'.sent, k, n'.views[k].xt) {
      if !n.views[k].Unknown? {
        ViewOkMonotone(cfg, n, n', k, n.views[k].xt);
      }
    }
    forall b | b in n'.sent ensures Backing(cfg, n', b) {
      if b in n.sent { assert Backing(cfg, n, b); }
    }
  }

  lemma {:induction false} RunKeepsInv(cfg: Config, id: Id, steps: seq<Action>)
    requires cfg.origin in cfg.members
    ensures Inv(cfg, Run(cfg, id, steps))
  {
    if steps != [] {
      var n := Run(cfg, id, steps[..|steps| - 1]);
      var s := steps[|steps| - 1];
      RunKeepsInv(cfg, id, steps[..|steps| - 1]);
      if s.Vote? { VoteKeepsInv(cfg, id, n, s.c, s.yes); }
      else if s.Deliver? { DeliverKeepsInv(cfg, id, n, s.c, s.ballot); }
      else { OtherStepsKeepInv(cfg, id, n, s); }
    }
  }

  // ---------- Agreement ----------

  lemma CleanCount(txs: map<ChainId, seq<Tx>>)
    ensures |Clean(txs)| <= |txs|
  {
    SubsetCount(Clean(txs).Keys, txs.Keys);
  }

  /** Who runs a sidecar votes at most once, and only if it may start a simulation. */
  lemma OneVoteEach(cfg: Config, id: Id, steps: seq<Action>, c: ChainId)
    requires cfg.origin in cfg.members && c !in Outsiders(cfg)
    ensures var n := Run(cfg, id, steps);
            && !(Ballot(c, true) in n.sent && Ballot(c, false) in n.sent)
            && (forall v :: Ballot(c, v) in n.sent ==> c in Callers(cfg))
            && (Ballot(c, true) in n.sent ==> c in Participants(cfg))
  {
    var n := Run(cfg, id, steps);
    RunKeepsInv(cfg, id, steps);
    assert forall v :: Ballot(c, v) in n.sent ==> Backing(cfg, n, Ballot(c, v));
  }

  /** Every participant has voted yes. */
  ghost predicate AllIn(cfg: Config, n: Net) {
    forall d :: d in Participants(cfg) ==> Ballot(d, true) in n.sent
  }

  /** The number of votes sidecar `c` waits for: the origin counts chains with an empty list, the others do not. */
  function Expected(cfg: Config, c: ChainId): nat {
    if c == cfg.origin then |cfg.txs| else |Participants(cfg)|
  }

  ghost predicate EnoughYes(cfg: Config, n: Net, c: ChainId) {
    exists ds :: ds <= Participants(cfg) + Outsiders(cfg) && AllYes(n.sent, ds, Expected(cfg, c))
  }

  ghost predicate SomeNoVote(cfg: Config, n: Net) {
    exists d :: d in Callers(cfg) + Outsiders(cfg) && Ballot(d, false) in n.sent
  }

  lemma CommitHasYes(cfg: Config, n: Net, c: ChainId)
    requires Inv(cfg, n) && Decided(n, c, true)
    ensures EnoughYes(cfg, n, c)
  {
    var xt := n.views[c].xt;
    assert ViewOk(cfg, n.sent, c, xt);
    var ds :| AllYes(n.sent, ds, |xt.rawTxs|);
    forall d | d in ds ensures d in Participants(cfg) + Outsiders(cfg) { assert Backing(cfg, n, Ballot(d, true)); }
    assert |Clean(cfg.txs)| == |Participants(cfg)|;
    assert AllYes(n.sent, ds, Expected(cfg, c));
  }

  lemma AbortHasNo(cfg: Config, n: Net, c: ChainId)
    requires Inv(cfg, n) && Decided(n, c, false)
    ensures SomeNoVote(cfg, n)
  {
    assert ViewOk(cfg, n.sent, c, n.views[c].xt);
    var d :| Ballot(d, false) in n.sent;
    assert Backing(cfg, n, Ballot(d, false));
  }

  /**
    A commit anywhere takes yes votes from as many participants and outsiders as
    the sidecar waits for; an abort anywhere takes a no vote from a participant,
    the origin or an outsider.
   */
  lemma DecisionsRestOnVotes(cfg: Config, id: Id, steps: seq<Action>, c: ChainId)
    requires cfg.origin in cfg.members
    ensures var n := Run(cfg, id, steps);
            && (Decided(n, c, true) ==> EnoughYes(cfg, n, c))
            && (Decided(n, c, false) ==> SomeNoVote(cfg, n))
  {
    var n := Run(cfg, id, steps);
    RunKeepsInv(cfg, id, steps);
    if Decided(n, c, true) { CommitHasYes(cfg, n, c); }
    if Decided(n, c, false) { AbortHasNo(cfg, n, c); }
  }

  /** Without outsiders a commit anywhere means every participant voted yes. */
  lemma CommitIsUnanimous(cfg: Config, id: Id, steps: seq<Action>, c: ChainId)
    requires cfg.origin in cfg.members && Outsiders(cfg) == {} && Decided(Run(cfg, id, steps), c, true)
    ensures AllIn(cfg, Run(cfg, id, steps))
  {
    var n := Run(cfg, id, steps);
    DecisionsRestOnVotes(cfg, id, steps, c);
    var ds :| ds <= Participants(cfg) + Outsiders(cfg) && AllYes(n.sent, ds, Expected(cfg, c));
    CleanCount(cfg.txs);
    SubsetCount(ds, Participants(cfg));
  }

  lemma ParticipatingOriginAgrees(cfg: Config, id: Id, steps: seq<Action>)
    requires cfg.origin in cfg.members && cfg.origin in Participants(cfg) && Outsiders(cfg) == {}
    ensures Agree(Run(cfg, id, steps))
  {
    var n := Run(cfg, id, steps);
    forall c, c' | Decided(n, c, true) ensures !Decided(n, c', false) {
      CommitIsUnanimous(cfg, id, steps, c);
      DecisionsRestOnVotes(cfg, id, steps, c');
      if Decided(n, c', false) {
        var d :| d in Participants(cfg) && Ballot(d, false) in n.sent;
        OneVoteEach(cfg, id, steps, d);
      }
    }
  }

  /** Without any transaction only the origin ever knows the XT. */
  lemma NoParticipantsAgree(cfg: Config, id: Id, steps: seq<Action>)
    requires cfg.origin in cfg.members && Participants(cfg) == {}
    ensures Agree(Run(cfg, id, steps))
  {
    RunKeepsInv(cfg, id, steps);
  }

  lemma SoleMemberAgrees(cfg: Config, id: Id, steps: seq<Action>)
    requires cfg.members == {cfg.origin}
    ensures Agree(Run(cfg, id, steps))
  {
  }
}
