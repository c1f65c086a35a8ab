/**
  The coordinator, its builder commands and the nonce lane together. Commands are
  computed inside a critical section and carried out later, one at a time, in any
  order and interleaved with anything else.
 */
module BuilderSystem {
  import opened Prelude
  import opened Xt
  import opened CoordState
  import opened CoordInvariants
  import opened Decisions
  import N = NonceLane
  import R = NonceRuns

  /**
    Everything beside the coordinator state. `waiting` holds commands not yet
    carried out, `offered` the XTs whose release is being built or sent,
    `accepted` those the builder took. `log` is the history of the nonce lane;
    `seen`, `released` and `aborting` record which ids were ever registered, ever
    given a release command, ever given an abort command.
   */
  datatype Ops = Ops(waiting: multiset<Command>, offered: set<Id>, accepted: set<Id>, log: seq<R.Event>,
                     seen: set<Id>, released: set<Id>, aborting: set<Id>)

  datatype Sys = Sys(coord: Coord, ops: Ops)

  const START: Sys := Sys(INITIAL, Ops(multiset{}, {}, {}, [], {}, {}, {}))

  ghost function LaneOf(o: Ops): N.Lane {
    R.After(o.log, |o.log|)
  }

  datatype Move =
    | Section(s: Step)
    | Reserve(cmd: Command, canonical: u64)
    | NothingToReserve(cmd: Command)
    | ReleaseFails(cmd: Command)
    | BuildFails(id: Id)
    | BuilderAccepts(id: Id)
    | BuilderRejects(id: Id)
    | CarryOutAbort(cmd: Command, ok: bool)
    | LaneConfirms(id: Id)

  /** The id a section registers, when it registers one. */
  ghost predicate Registers(c: Coord, self: ChainId, s: Step, id: Id) {
    id !in c.pending && id in Next(c, self, s).pending
  }

  ghost function Issue(o: Ops, cmds: set<Command>, newIds: set<Id>): Ops {
    o.(waiting := o.waiting + multiset(cmds),
       seen := o.seen + newIds,
       released := o.released + (set cmd | cmd in cmds && cmd.Release? :: cmd.id),
       aborting := o.aborting + (set cmd | cmd in cmds && cmd.AbortXt? :: cmd.id))
  }

  function Note(o: Ops, e: R.Event): Ops {
    o.(log := o.log + [e])
  }

  ghost function Act(o: Ops, m: Move): Ops
    requires !m.Section?
  {
    match m
    case Reserve(cmd, canonical) =>
      if cmd in o.waiting && cmd.Release? && cmd.deps != [] then
        Note(o, R.Reserved(cmd.id, |cmd.deps|, canonical))
        .(waiting := o.waiting - multiset{cmd}, offered := o.offered + {cmd.id})
      else o
    case NothingToReserve(cmd) =>
      if cmd in o.waiting && cmd.Release? && cmd.deps == [] then
        o.(waiting := o.waiting - multiset{cmd}, offered := o.offered + {cmd.id})
      else o
    case ReleaseFails(cmd) =>
      if cmd in o.waiting && cmd.Release? then o.(waiting := o.waiting - multiset{cmd}) else o
    case BuildFails(id) => if id in o.offered then Note(o, R.Aborted(id)).(offered := o.offered - {id}) else o
    case BuilderAccepts(id) =>
      if id in o.offered then o.(offered := o.offered - {id}, accepted := o.accepted + {id}) else o
    case BuilderRejects(id) => if id in o.offered then Note(o, R.Aborted(id)).(offered := o.offered - {id}) else o
    case CarryOutAbort(cmd, ok) =>
      if cmd in o.waiting && cmd.AbortXt? then
        var o1 := o.(waiting := o.waiting - multiset{cmd});
        if ok then Note(o1, R.Aborted(cmd.id)) else o1
      else o
    case LaneConfirms(id) => Note(o, R.Confirmed(id))
  }

  ghost function Do(y: Sys, self: ChainId, m: Move): Sys {
    if m.Section? then
      var c' := Next(y.coord, self, m.s);
      Sys(c', Issue(y.ops, Commands(y.coord, self, m.s), c'.pending.Keys - y.coord.pending.Keys))
    else Sys(y.coord, Act(y.ops, m))
  }

  ghost function Run(self: ChainId, ms: seq<Move>): Sys {
    if ms == [] then START else Do(Run(self, ms[..|ms| - 1]), self, ms[|ms| - 1])
  }

  /** No rollback, no id registered twice, and reservations that fit in a machine word. */
  ghost predicate Fair(y: Sys, self: ChainId, m: Move) {
    && (m.Section? ==>
          && !m.s.Rollback?
          && (forall id :: Registers(y.coord, self, m.s, id) ==> id !in y.ops.seen)
          && (forall id :: id in y.coord.pending ==> !Mints(y.coord, self, m.s, id)))
    && (m.Reserve? && m.cmd.Release? ==> N.Fits(LaneOf(y.ops), |m.cmd.deps|, m.canonical))
  }

  ghost predicate FairRun(self: ChainId, ms: seq<Move>) {
    forall k :: 0 <= k < |ms| ==> Fair(Run(self, ms[..k]), self, ms[k])
  }

  // ---------- Decisions and commands ----------

  function DecisionsOf(pending: map<Id, PendingXt>): map<Id, Option<bool>> {
    map id | id in pending :: pending[id].decision
  }

  /** Commands on record agree with the decisions, and nothing is both released and aborted. */
  ghost predicate CommandsAgree(d: map<Id, Option<bool>>, o: Ops) {
    && d.Keys <= o.seen && o.released <= o.seen && o.aborting <= o.seen
    && o.released !! o.aborting
    && (forall id :: id in o.released && id in d ==> d[id] == Some(true))
    && (forall id :: id in o.aborting && id in d ==> d[id] == Some(false))
    && (forall cmd :: cmd in o.waiting ==> cmd.id in if cmd.Release? then o.released else o.aborting)
  }

  /** Every release is carried out at most once. */
  ghost predicate OneReleaseEach(o: Ops) {
    && o.offered <= o.released && o.accepted <= o.released && o.offered !! o.accepted
    && (forall cmd :: cmd in o.waiting && cmd.Release? ==>
          && o.waiting[cmd] == 1 && cmd.id !in o.offered && cmd.id !in o.accepted
          && !Reserves(o.log, cmd.id) && !Aborts(o.log, cmd.id))
    && (forall a, b :: a in o.waiting && b in o.waiting && a.Release? && b.Release? && a.id == b.id ==> a == b)
    && (forall id :: id in o.offered || id in o.accepted ==> !Aborts(o.log, id))
    && (forall k :: 0 <= k < |o.log| && o.log[k].Reserved? ==> o.log[k].id in o.released)
    && (forall k :: 0 <= k < |o.log| && o.log[k].Aborted? ==> o.log[k].id in o.released + o.aborting)
  }

  ghost predicate Reserves(log: seq<R.Event>, id: Id) {
    exists k :: 0 <= k < |log| && log[k].Reserved? && log[k].id == id
  }

  ghost predicate Aborts(log: seq<R.Event>, id: Id) {
    exists k :: 0 <= k < |log| && log[k] == R.Aborted(id)
  }

  // ---------- A section ----------

  /** How a section other than a rollback moves the decisions, and which commands it may issue. */
  ghost predicate SectionMoves(d: map<Id, Option<bool>>, d': map<Id, Option<bool>>, cmds: set<Command>) {
    && (forall id :: id in d && id in d' && d[id].Some? ==> d'[id] == d[id])
    && (forall cmd :: cmd in cmds ==> cmd.id in d && cmd.id in d' && d'[cmd.id] == Some(cmd.Release?))
    && (forall cmd :: cmd in cmds && cmd.Release? ==> d[cmd.id].None?)
    && (forall a, b :: a in cmds && b in cmds && a.id == b.id ==> a == b)
  }

  lemma SectionDecisions(c: Coord, self: ChainId, s: Step, id: Id)
    requires id in c.pending && id in Next(c, self, s).pending && !s.Rollback? && !Mints(c, self, s, id)
    ensures c.pending[id].decision.Some? ==> Next(c, self, s).pending[id].decision == c.pending[id].decision
  {
    DecisionOnlyMovesUp(c, self, s, id);
  }

  lemma TouchCommand(c: Coord, self: ChainId, s: Step, cmd: Command)
    requires Keyed(c.pending) && TouchesOne(s) && cmd in Commands(c, self, s)
    ensures s.id in c.pending && cmd.id == s.id && Commands(c, self, s) == {cmd} && s.id in Next(c, self, s).pending
    ensures Next(c, self, s).pending[s.id].decision == Some(cmd.Release?) && c.pending[s.id].decision.None?
  {
    ReleaseOnTouch(c.pending[s.id], self, s);
  }

  lemma SectionCommand(c: Coord, self: ChainId, s: Step, cmd: Command)
    requires Keyed(c.pending) && !s.Rollback? && cmd in Commands(c, self, s)
    ensures cmd.id in c.pending && cmd.id in Next(c, self, s).pending
    ensures Next(c, self, s).pending[cmd.id].decision == Some(cmd.Release?)
    ensures cmd.Release? ==> c.pending[cmd.id].decision.None?
    ensures cmd.AbortXt? || (TouchesOne(s) && Commands(c, self, s) == {cmd})
  {
    if TouchesOne(s) {
      TouchCommand(c, self, s, cmd);
    } else if s.StartPeriod? {
      var id :| id in c.pending && Stale(c.pending[id], s.p) && cmd == AbortXt(c.pending[id].id);
      assert id == cmd.id;
      var decision := c.pending[id].decision;
      assert decision.Some? ==> !decision.value && decision == Some(false);
    }
  }

  lemma SectionIsGood(c: Coord, self: ChainId, s: Step)
    requires Keyed(c.pending) && !s.Rollback? && forall id :: id in c.pending ==> !Mints(c, self, s, id)
    ensures SectionMoves(DecisionsOf(c.pending), DecisionsOf(Next(c, self, s).pending), Commands(c, self, s))
  {
    var d, d' := DecisionsOf(c.pending), DecisionsOf(Next(c, self, s).pending);
    forall id | id in d && id in d' && d[id].Some? ensures d'[id] == d[id] {
      SectionDecisions(c, self, s, id);
    }
    forall cmd | cmd in Commands(c, self, s)
      ensures cmd.id in d && cmd.id in d' && d'[cmd.id] == Some(cmd.Release?)
      ensures cmd.Release? ==> d[cmd.id].None? && Commands(c, self, s) == {cmd}
    {
      SectionCommand(c, self, s, cmd);
    }
  }

  lemma IssueAgrees(d: map<Id, Option<bool>>, d': map<Id, Option<bool>>, o: Ops, cmds: set<Command>)
    requires CommandsAgree(d, o) && SectionMoves(d, d', cmds) && (d'.Keys - d.Keys) !! o.seen
    ensures CommandsAgree(d', Issue(o, cmds, d'.Keys - d.Keys))
  {
    var o' := Issue(o, cmds, d'.Keys - d.Keys);
    forall cmd | cmd in cmds ensures cmd.Release? ==> cmd.id !in o.aborting && cmd.id !in o.released
                             ensures cmd.AbortXt? ==> cmd.id !in o.released
    {
    }
    forall cmd | cmd in o'.waiting ensures cmd.id in if cmd.Release? then o'.released else o'.aborting {
      assert cmd in o.waiting || cmd in cmds;
    }
  }

  lemma IssueOnce(d: map<Id, Option<bool>>, d': map<Id, Option<bool>>, o: Ops, cmds: set<Command>)
    requires CommandsAgree(d, o) && OneReleaseEach(o) && SectionMoves(d, d', cmds) && (d'.Keys - d.Keys) !! o.seen
    ensures OneReleaseEach(Issue(o, cmds, d'.Keys - d.Keys))
  {
    var o' := Issue(o, cmds, d'.Keys - d.Keys);
    forall cmd | cmd in cmds && cmd.Release?
      ensures cmd !in o.waiting && cmd.id !in o.offered && cmd.id !in o.accepted && !Reserves(o.log, cmd.id)
              && !Aborts(o.log, cmd.id)
    {
      assert cmd.id !in o.released && cmd.id !in o.aborting;
    }
    forall cmd | cmd in o'.waiting && cmd.Release? ensures o'.waiting[cmd] == 1 && (cmd in cmds || cmd in o.waiting) {
    }
  }

  // ---------- A step of a command ----------

  lemma ActAgrees(d: map<Id, Option<bool>>, o: Ops, m: Move)
    requires CommandsAgree(d, o) && !m.Section?
    ensures CommandsAgree(d, Act(o, m))
  {
    assert forall cmd :: cmd in Act(o, m).waiting ==> cmd in o.waiting;
  }

  lemma NoteReserves(log: seq<R.Event>, e: R.Event, id: Id)
    ensures Reserves(log + [e], id) <==> Reserves(log, id) || (e.Reserved? && e.id == id)
    ensures Aborts(log + [e], id) <==> Aborts(log, id) || e == R.Aborted(id)
  {
    var l := log + [e];
    assert l[|log|] == e;
    if Reserves(log, id) {
      var k :| 0 <= k < |log| && log[k].Reserved? && log[k].id == id;
      assert l[k] == log[k];
    }
    if Aborts(log, id) {
      var k :| 0 <= k < |log| && log[k] == R.Aborted(id);
      assert l[k] == log[k];
    }
  }

  /** Appending an event to the log changes what it says about that event's id only. */
  lemma NoteFacts(log: seq<R.Event>, e: R.Event)
    ensures forall id :: Reserves(log + [e], id) <==> Reserves(log, id) || (e.Reserved? && e.id == id)
    ensures forall id :: Aborts(log + [e], id) <==> Aborts(log, id) || e == R.Aborted(id)
  {
    forall id ensures Reserves(log + [e], id) <==> Reserves(log, id) || (e.Reserved? && e.id == id)
              ensures Aborts(log + [e], id) <==> Aborts(log, id) || e == R.Aborted(id)
    {
      NoteReserves(log, e, id);
    }
  }

  lemma TakeReleaseOnce(o: Ops, cmd: Command, o': Ops)
    requires OneReleaseEach(o) && cmd in o.waiting && cmd.Release? && cmd.id in o.released
    requires o' == o.(waiting := o.waiting - multiset{cmd}, offered := o'.offered)
    requires o'.offered == o.offered || o'.offered == o.offered + {cmd.id}
    ensures OneReleaseEach(o')
    ensures forall c :: c in o'.waiting && c.Release? ==> c.id != cmd.id
  {
    assert forall c :: c in o'.waiting ==> c in o.waiting && o'.waiting[c] <= o.waiting[c];
  }

  lemma NoteReservedOnce(o: Ops, id: Id, count: nat, canonical: u64)
    requires OneReleaseEach(o) && id in o.offered && forall c :: c in o.waiting && c.Release? ==> c.id != id
    ensures OneReleaseEach(Note(o, R.Reserved(id, count, canonical)))
  {
    NoteFacts(o.log, R.Reserved(id, count, canonical));
  }

  lemma NoteAbortedOnce(o: Ops, id: Id)
    requires OneReleaseEach(o) && id in o.released + o.aborting && id !in o.offered && id !in o.accepted
    requires forall c :: c in o.waiting && c.Release? ==> c.id != id
    ensures OneReleaseEach(Note(o, R.Aborted(id)))
  {
    NoteFacts(o.log, R.Aborted(id));
  }

  lemma NoteConfirmedOnce(o: Ops, id: Id)
    requires OneReleaseEach(o)
    ensures OneReleaseEach(Note(o, R.Confirmed(id)))
  {
    NoteFacts(o.log, R.Confirmed(id));
  }

  lemma CarryOutOnce(d: map<Id, Option<bool>>, o: Ops, cmd: Command)
    requires CommandsAgree(d, o) && OneReleaseEach(o) && cmd in o.waiting && cmd.AbortXt?
    ensures OneReleaseEach(o.(waiting := o.waiting - multiset{cmd}))
  {
    var w := o.waiting - multiset{cmd};
    assert forall c :: c in w ==> c in o.waiting && w[c] <= o.waiting[c];
  }

  lemma OfferWithdrawn(o: Ops, id: Id)
    requires OneReleaseEach(o) && id in o.offered
    ensures OneReleaseEach(Note(o, R.Aborted(id)).(offered := o.offered - {id}))
  {
    NoteAbortedOnce(o.(offered := o.offered - {id}), id);
  }

  lemma OfferAccepted(o: Ops, id: Id)
    requires OneReleaseEach(o) && id in o.offered
    ensures OneReleaseEach(o.(offered := o.offered - {id}, accepted := o.accepted + {id}))
  {
  }

  lemma ReleaseTaken(o: Ops, cmd: Command, canonical: u64)
    requires OneReleaseEach(o) && cmd in o.waiting && cmd.Release? && cmd.id in o.released
    ensures var o1 := o.(waiting := o.waiting - multiset{cmd}, offered := o.offered + {cmd.id});
            OneReleaseEach(o1) && OneReleaseEach(Note(o1, R.Reserved(cmd.id, |cmd.deps|, canonical)))
    ensures OneReleaseEach(o.(waiting := o.waiting - multiset{cmd}))
  {
    var o1 := o.(waiting := o.waiting - multiset{cmd}, offered := o.offered + {cmd.id});
    TakeReleaseOnce(o, cmd, o1);
    TakeReleaseOnce(o, cmd, o.(waiting := o.waiting - multiset{cmd}));
    NoteReservedOnce(o1, cmd.id, |cmd.deps|, canonical);
  }

  lemma AbortCarriedOut(d: map<Id, Option<bool>>, o: Ops, cmd: Command)
    requires CommandsAgree(d, o) && OneReleaseEach(o) && cmd in o.waiting && cmd.AbortXt?
    ensures var o1 := o.(waiting := o.waiting - multiset{cmd});
            OneReleaseEach(o1) && OneReleaseEach(Note(o1, R.Aborted(cmd.id)))
  {
    CarryOutOnce(d, o, cmd);
    NoteAbortedOnce(o.(waiting := o.waiting - multiset{cmd}), cmd.id);
  }

  lemma ActOnce(d: map<Id, Option<bool>>, o: Ops, m: Move)
    requires CommandsAgree(d, o) && OneReleaseEach(o) && !m.Section?
    ensures OneReleaseEach(Act(o, m))
  {
    if Act(o, m) != o {
      match m
      case Reserve(cmd, canonical) => ReleaseTaken(o, cmd, canonical);
      case NothingToReserve(cmd) => ReleaseTaken(o, cmd, 0);
      case ReleaseFails(cmd) => ReleaseTaken(o, cmd, 0);
      case BuildFails(id) => OfferWithdrawn(o, id);
      case BuilderAccepts(id) => OfferAccepted(o, id);
      case BuilderRejects(id) => OfferWithdrawn(o, id);
      case CarryOutAbort(cmd, ok) => AbortCarriedOut(d, o, cmd);
      case LaneConfirms(id) => NoteConfirmedOnce(o, id);
    }
  }

  /** A live reservation was reserved at some point of the log. */
  lemma {:induction false} LiveWasReserved(log: seq<R.Event>, k: nat, id: Id)
    requires k <= |log| && id in R.After(log, k).live
    ensures Reserves(log, id)
  {
    if k > 0 && id in R.After(log, k - 1).live {
      LiveWasReserved(log, k - 1, id);
    }
  }

  lemma {:induction false} AfterPrefix(log: seq<R.Event>, e: R.Event, k: nat)
    requires k <= |log|
    ensures R.After(log + [e], k) == R.After(log, k)
  {
    if k > 0 { AfterPrefix(log, e, k - 1); }
  }

  lemma NoteLegal(log: seq<R.Event>, e: R.Event)
    requires R.Legal(log) && (e.Reserved? ==> R.LegalReserve(R.After(log, |log|), e))
    ensures R.Legal(log + [e])
  {
    forall k | 0 <= k < |log + [e]| && (log + [e])[k].Reserved?
      ensures R.LegalReserve(R.After(log + [e], k), (log + [e])[k])
    {
      AfterPrefix(log, e, k);
    }
  }

  lemma ActLegal(o: Ops, m: Move)
    requires OneReleaseEach(o) && R.Legal(o.log) && !m.Section?
    requires m.Reserve? && m.cmd.Release? ==> N.Fits(LaneOf(o), |m.cmd.deps|, m.canonical)
    ensures R.Legal(Act(o, m).log)
  {
    var o' := Act(o, m);
    if o'.log != o.log {
      var e := o'.log[|o.log|];
      if e.Reserved? && e.id in LaneOf(o).live {
        LiveWasReserved(o.log, |o.log|, e.id);
      }
      NoteLegal(o.log, e);
    }
  }

  // ---------- Whole runs ----------

  ghost predicate Sound(y: Sys) {
    && Keyed(y.coord.pending) && CommandsAgree(DecisionsOf(y.coord.pending), y.ops)
    && OneReleaseEach(y.ops) && R.Legal(y.ops.log)
  }

  lemma NewIdsUnseen(c: Coord, self: ChainId, s: Step, o: Ops)
    requires Fair(Sys(c, o), self, Section(s))
    ensures (Next(c, self, s).pending.Keys - c.pending.Keys) !! o.seen
  {
    forall id | id in Next(c, self, s).pending.Keys - c.pending.Keys ensures id !in o.seen {
      assert Registers(c, self, s, id);
    }
  }

  lemma IssueKeeps(c: Coord, c': Coord, o: Ops, cmds: set<Command>)
    requires CommandsAgree(DecisionsOf(c.pending), o) && OneReleaseEach(o)
    requires SectionMoves(DecisionsOf(c.pending), DecisionsOf(c'.pending), cmds)
    requires (c'.pending.Keys - c.pending.Keys) !! o.seen
    ensures var o' := Issue(o, cmds, c'.pending.Keys - c.pending.Keys);
            CommandsAgree(DecisionsOf(c'.pending), o') && OneReleaseEach(o')
  {
    var d, d' := DecisionsOf(c.pending), DecisionsOf(c'.pending);
    assert d'.Keys == c'.pending.Keys && d.Keys == c.pending.Keys;
    IssueAgrees(d, d', o, cmds);
    IssueOnce(d, d', o, cmds);
  }

  lemma SectionOps(c: Coord, self: ChainId, s: Step, o: Ops)
    requires Keyed(c.pending) && CommandsAgree(DecisionsOf(c.pending), o) && OneReleaseEach(o)
    requires Fair(Sys(c, o), self, Section(s))
    ensures CommandsAgree(DecisionsOf(Next(c, self, s).pending), Do(Sys(c, o), self, Section(s)).ops)
    ensures OneReleaseEach(Do(Sys(c, o), self, Section(s)).ops)
  {
    SectionIsGood(c, self, s);
    NewIdsUnseen(c, self, s, o);
    IssueKeeps(c, Next(c, self, s), o, Commands(c, self, s));
  }

  lemma SectionSound(y: Sys, self: ChainId, s: Step)
    requires Sound(y) && Fair(y, self, Section(s))
    ensures Sound(Do(y, self, Section(s)))
  {
    NextKeyed(y.coord, self, s);
    SectionOps(y.coord, self, s, y.ops);
  }

  /** The coordinator's own steps of an interleaving, in order. */
  function Sections(ms: seq<Move>): seq<Step> {
    if ms == [] then []
    else
      var before, m := Sections(ms[..|ms| - 1]), ms[|ms| - 1];
      if m.Section? then before + [m.s] else before
  }

  /** The coordinator of an interleaving is where its own steps take it, so what holds of its runs holds here. */
  lemma {:induction false} CoordFollowsSections(self: ChainId, ms: seq<Move>)
    ensures Run(self, ms).coord == After(self, Sections(ms))
  {
    if ms != [] {
      CoordFollowsSections(self, ms[..|ms| - 1]);
      if ms[|ms| - 1].Section? {
        var ss := Sections(ms);
        assert ss[..|ss| - 1] == Sections(ms[..|ms| - 1]);
      }
    }
  }

  lemma {:induction false} RunSound(self: ChainId, ms: seq<Move>)
    requires FairRun(self, ms)
    ensures Sound(Run(self, ms))
  {
    if ms != [] {
      var pre, m := ms[..|ms| - 1], ms[|ms| - 1];
      forall k | 0 <= k < |pre| ensures Fair(Run(self, pre[..k]), self, pre[k]) { assert pre[..k] == ms[..k]; }
      RunSound(self, pre);
      var y := Run(self, pre);
      assert Fair(y, self, m);
      if m.Section? {
        SectionSound(y, self, m.s);
      } else {
        ActAgrees(DecisionsOf(y.coord.pending), y.ops, m);
        ActOnce(DecisionsOf(y.coord.pending), y.ops, m);
        ActLegal(y.ops, m);
      }
    }
  }

  /** An accepted XT never gives its nonces back, so the lane never hands them out again. */
  lemma AcceptedNoncesKept(o: Ops, i: nat, j: nat, n: int)
    requires OneReleaseEach(o) && R.Legal(o.log)
    requires i < j < |o.log| && o.log[i].Reserved? && o.log[i].id in o.accepted && R.Issues(o.log, i, n)
    ensures !R.Issues(o.log, j, n)
  {
    if R.Issues(o.log, j, n) {
      R.NoDoubleIssue(o.log, i, j, n);
      assert false;
    }
  }

  /**
    Over every interleaving without rollback or id reuse, the nonces reserved for
    an XT whose release the builder accepted are never issued again, whatever
    canonical nonce later reservations fetch and however many periods start.
   */
  lemma CommittedNoncesStayOwned(self: ChainId, ms: seq<Move>, i: nat, j: nat, n: int)
    requires FairRun(self, ms)
    requires var log := Run(self, ms).ops.log;
             && i < j < |log| && log[i].Reserved? && log[i].id in Run(self, ms).ops.accepted && R.Issues(log, i, n)
    ensures !R.Issues(Run(self, ms).ops.log, j, n)
  {
    RunSound(self, ms);
    AcceptedNoncesKept(Run(self, ms).ops, i, j, n);
  }
}
