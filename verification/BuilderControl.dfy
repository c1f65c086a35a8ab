/**
  Carrying out builder commands: reserving `putInbox` nonces, building the
  transactions, and giving nonces back on failure.
 */
module BuilderControl {
  import opened Prelude
  import opened Matching
  import opened Xt
  import opened NonceLane
  import BuilderSystem
  import Rollbacks
  import R = NonceRuns

  /**
    How the outside answered: is a builder client wired, is a signer configured, the
    chain's nonce, each build, the builder itself.
   */
  datatype Answers = Answers(
    hasBuilder: bool, configured: bool, canonical: Result<u64, string>, built: seq<bool>, accepted: bool)

  datatype PutInbox = PutInbox(dep: Dependency, nonce: u64)

  ghost predicate AllBuilt(deps: seq<Dependency>, built: seq<bool>) {
    |built| >= |deps| && forall i :: 0 <= i < |deps| ==> built[i]
  }

  ghost predicate Reserves(deps: seq<Dependency>, a: Answers) {
    deps != [] && a.configured && a.canonical.Ok?
  }

  /** The lane after building the transactions of a release. */
  ghost function BuiltLane(l: Lane, id: Id, deps: seq<Dependency>, a: Answers): Lane {
    if !Reserves(deps, a) then l
    else if AllBuilt(deps, a.built) then Reserve(l, id, |deps|, a.canonical.value)
    else Abort(Reserve(l, id, |deps|, a.canonical.value), id)
  }

  ghost predicate BuildSucceeds(deps: seq<Dependency>, a: Answers) {
    deps == [] || (Reserves(deps, a) && AllBuilt(deps, a.built))
  }

  ghost function AppliedLane(l: Lane, cmd: Command, a: Answers): Lane {
    match cmd
    case Release(id, deps) =>
      if !a.hasBuilder then l
      else if !BuildSucceeds(deps, a) || a.accepted then BuiltLane(l, id, deps, a)
      else Abort(BuiltLane(l, id, deps, a), id)
    case AbortXt(id) => if a.hasBuilder && !a.accepted then l else Abort(l, id)
  }

  /** One transaction per dependency, with consecutive nonces from the start of the reservation. */
  method BuildPutInboxTransactions(manager: DeferredNonceManager, id: Id, deps: seq<Dependency>, a: Answers)
    returns (r: Result<seq<PutInbox>, string>)
    modifies manager
    ensures manager.View() == BuiltLane(old(manager.View()), id, deps, a)
    ensures r.Ok? <==> BuildSucceeds(deps, a)
    ensures r.Ok? ==> |r.value| == |deps| && forall i :: 0 <= i < |deps| ==> r.value[i].dep == deps[i]
    ensures r.Ok? && deps != [] ==> forall i :: 0 <= i < |deps| ==>
              r.value[i].nonce == SaturatingAdd(ReserveStart(old(manager.View()), |deps|, a.canonical.value), i)
  {
    if deps == [] { return Ok([]); }
    if !a.configured { return Err("putInbox signer not configured"); }
    var start := manager.ReserveRun(id, |deps|, a.canonical);
    if start.Err? { return Err(start.error); }
    var nonce := start.value;
    var txs: seq<PutInbox> := [];
    for i := 0 to |deps|
      invariant nonce == SaturatingAdd(start.value, i) && |txs| == i
      invariant i <= |a.built| && forall k :: 0 <= k < i ==> a.built[k]
      invariant forall k :: 0 <= k < i ==> txs[k] == PutInbox(deps[k], SaturatingAdd(start.value, k))
      invariant manager.View() == Reserve(old(manager.View()), id, |deps|, a.canonical.value)
    {
      if i >= |a.built| || !a.built[i] {
        manager.ReleaseAborted(id);
        return Err("putInbox build failed");
      }
      txs := txs + [PutInbox(deps[i], nonce)];
      nonce := SaturatingAdd(nonce, 1);
    }
    return Ok(txs);
  }

  method ApplyBuilderCommand(manager: DeferredNonceManager, cmd: Command, a: Answers) returns (ok: bool)
    modifies manager
    ensures manager.View() == AppliedLane(old(manager.View()), cmd, a)
    ensures ok <==> !a.hasBuilder || (a.accepted && (cmd.Release? ==> BuildSucceeds(cmd.deps, a)))
  {
    match cmd
    case Release(id, deps) =>
      if !a.hasBuilder { return true; }
      var txs := BuildPutInboxTransactions(manager, id, deps, a);
      if txs.Err? { return false; }
      if !a.accepted {
        manager.ReleaseAborted(id);
        return false;
      }
      return true;
    case AbortXt(id) =>
      if a.hasBuilder && !a.accepted { return false; }
      manager.ReleaseAborted(id);
      return true;
  }

  /** The tail of a rollback: the first builder error ends it before the lane is reset. */
  method AbortThenReset(manager: DeferredNonceManager, ids: seq<Id>, oks: seq<bool>) returns (done: bool)
    requires |oks| == |ids|
    modifies manager
    ensures manager.View() == Rollbacks.RollbackLane(old(manager.View()), ids, oks)
    ensures done <==> forall k :: 0 <= k < |oks| ==> oks[k]
  {
    for i := 0 to |ids|
      invariant Rollbacks.RollbackLane(manager.View(), ids[i..], oks[i..])
                == Rollbacks.RollbackLane(old(manager.View()), ids, oks)
      invariant forall k :: 0 <= k < i ==> oks[k]
    {
      assert ids[i..][0] == ids[i] && ids[i..][1..] == ids[i + 1..];
      assert oks[i..][0] == oks[i] && oks[i..][1..] == oks[i + 1..];
      if !oks[i] { return false; }
      manager.ReleaseAborted(ids[i]);
    }
    manager.Reset();
    return true;
  }

  // ---------- A command is a sequence of moves ----------

  ghost function ActAll(o: BuilderSystem.Ops, ms: seq<BuilderSystem.Move>): BuilderSystem.Ops
    requires forall m :: m in ms ==> !m.Section?
    decreases |ms|
  {
    if ms == [] then o else ActAll(BuilderSystem.Act(o, ms[0]), ms[1..])
  }

  /** The moves by which the interleaved system carries out a command that gets these answers. */
  ghost function MovesFor(cmd: Command, a: Answers): (ms: seq<BuilderSystem.Move>)
    ensures forall m :: m in ms ==> !m.Section?
  {
    match cmd
    case Release(id, deps) =>
      if !a.hasBuilder || (deps != [] && !Reserves(deps, a)) then [BuilderSystem.ReleaseFails(cmd)]
      else
        var first := if deps == [] then BuilderSystem.NothingToReserve(cmd)
            else BuilderSystem.Reserve(cmd, a.canonical.value);
        var last := if !BuildSucceeds(deps, a) then BuilderSystem.BuildFails(id)
                    else if a.accepted then BuilderSystem.BuilderAccepts(id) else BuilderSystem.BuilderRejects(id);
        [first, last]
    case AbortXt(id) => [BuilderSystem.CarryOutAbort(cmd, !a.hasBuilder || a.accepted)]
  }

  lemma NotedLane(o: BuilderSystem.Ops, e: R.Event)
    ensures BuilderSystem.LaneOf(BuilderSystem.Note(o, e)) == R.Step(BuilderSystem.LaneOf(o), e)
  {
    BuilderSystem.AfterPrefix(o.log, e, |o.log|);
  }

  lemma TwoMoves(o: BuilderSystem.Ops, m: BuilderSystem.Move, n: BuilderSystem.Move)
    requires !m.Section? && !n.Section?
    ensures ActAll(o, [m]) == BuilderSystem.Act(o, m)
    ensures ActAll(o, [m, n]) == BuilderSystem.Act(BuilderSystem.Act(o, m), n)
  {
    assert [m, n][1..] == [n] && [n][1..] == [] && [m][1..] == [];
    assert ActAll(BuilderSystem.Act(o, m), [n]) == BuilderSystem.Act(BuilderSystem.Act(o, m), n);
  }

  lemma SameLog(o: BuilderSystem.Ops, p: BuilderSystem.Ops)
    requires o.log == p.log
    ensures BuilderSystem.LaneOf(o) == BuilderSystem.LaneOf(p)
  {
  }

  /** The end of a release: what the last move does to the lane. */
  lemma OfferEnds(o: BuilderSystem.Ops, id: Id, keeps: bool, m: BuilderSystem.Move)
    requires id in o.offered
    requires m == if keeps then BuilderSystem.BuilderAccepts(id) else m
    requires !keeps ==> m == BuilderSystem.BuildFails(id) || m == BuilderSystem.BuilderRejects(id)
    ensures BuilderSystem.LaneOf(BuilderSystem.Act(o, m))
         == if keeps then BuilderSystem.LaneOf(o) else Abort(BuilderSystem.LaneOf(o), id)
  {
    if keeps {
      SameLog(o, BuilderSystem.Act(o, m));
    } else {
      NotedLane(o, R.Aborted(id));
      SameLog(BuilderSystem.Note(o, R.Aborted(id)), BuilderSystem.Act(o, m));
    }
  }

  lemma ReserveMove(o: BuilderSystem.Ops, cmd: Command, canonical: u64)
    requires cmd in o.waiting && cmd.Release? && cmd.deps != []
    ensures var o1 := BuilderSystem.Act(o, BuilderSystem.Reserve(cmd, canonical));
            && cmd.id in o1.offered
            && BuilderSystem.LaneOf(o1) == Reserve(BuilderSystem.LaneOf(o), cmd.id, |cmd.deps|, canonical)
  {
    var e := R.Reserved(cmd.id, |cmd.deps|, canonical);
    NotedLane(o, e);
    SameLog(BuilderSystem.Note(o, e), BuilderSystem.Act(o, BuilderSystem.Reserve(cmd, canonical)));
  }

  /** What carrying out a command does to the lane is what its moves do in the interleaved system. */
  lemma CommandIsMoves(o: BuilderSystem.Ops, cmd: Command, a: Answers)
    requires cmd in o.waiting
    ensures BuilderSystem.LaneOf(ActAll(o, MovesFor(cmd, a))) == AppliedLane(BuilderSystem.LaneOf(o), cmd, a)
  {
    var ms := MovesFor(cmd, a);
    TwoMoves(o, ms[0], if |ms| == 2 then ms[1] else ms[0]);
    if cmd.AbortXt? {
      NotedLane(o.(waiting := o.waiting - multiset{cmd}), R.Aborted(cmd.id));
      SameLog(o, o.(waiting := o.waiting - multiset{cmd}));
    } else if |ms| == 1 {
      SameLog(o, BuilderSystem.Act(o, ms[0]));
    } else {
      ReleaseIsMoves(o, cmd, a);
    }
  }

  lemma ReleaseIsMoves(o: BuilderSystem.Ops, cmd: Command, a: Answers)
    requires cmd in o.waiting && cmd.Release? && |MovesFor(cmd, a)| == 2
    ensures var ms := MovesFor(cmd, a);
            BuilderSystem.LaneOf(BuilderSystem.Act(BuilderSystem.Act(o, ms[0]), ms[1]))
            == AppliedLane(BuilderSystem.LaneOf(o), cmd, a)
  {
    var ms := MovesFor(cmd, a);
    var o1 := BuilderSystem.Act(o, ms[0]);
    if cmd.deps == [] { SameLog(o, o1); } else { ReserveMove(o, cmd, a.canonical.value); }
    OfferEnds(o1, cmd.id, BuildSucceeds(cmd.deps, a) && a.accepted, ms[1]);
  }

  // ---------- What a command leaves behind ----------

  /** The nonces of a release are distinct, are held by nobody else, and belong to its reservation. */
  lemma NoncesAreOwned(l: Lane, id: Id, count: nat, canonical: u64, i: nat, j: nat)
    requires Partitioned(l) && id !in l.live && Fits(l, count, canonical) && i < j < count
    ensures var s := ReserveStart(l, count, canonical);
            && SaturatingAdd(s, i) == s + i && SaturatingAdd(s, i) != SaturatingAdd(s, j) && !Held(l, s + i)
            && InRange(s + i, Reserve(l, id, count, canonical).live[id])
  {
    ReserveKeepsPartition(l, id, count, canonical);
  }

  /**
    Giving a fresh reservation back restores the other reservations and leaves
    its nonces ready for reuse; only the floor keeps what the chain reported.
   */
  lemma AbortUndoesReserve(l: Lane, id: Id, count: nat, canonical: u64)
    requires Partitioned(l) && id !in l.live && count > 0 && Fits(l, count, canonical)
    ensures var u := Abort(Reserve(l, id, count, canonical), id);
            && Partitioned(u) && u.live == Anchor(l, canonical).live && u.floor == Anchor(l, canonical).floor
            && forall n: int :: u.floor <= n ==> (Held(u, n) <==> Held(l, n))
    ensures var s := ReserveStart(l, count, canonical);
            forall n: int :: s <= n < s + count ==> n in Abort(Reserve(l, id, count, canonical), id).recycled
  {
    var r := Reserve(l, id, count, canonical);
    var u := Abort(r, id);
    ReserveKeepsPartition(l, id, count, canonical);
    AbortKeepsPartition(r, id);
    AnchorKeepsPartition(l, canonical);
    assert u.live == Anchor(l, canonical).live;
    forall n: int | u.floor <= n ensures Held(u, n) <==> Held(l, n) {
      assert Held(u, n) <==> Held(Anchor(l, canonical), n);
    }
  }

  lemma BuiltKeepsPartition(l: Lane, id: Id, deps: seq<Dependency>, a: Answers)
    requires Partitioned(l) && id !in l.live && (Reserves(deps, a) ==> Fits(l, |deps|, a.canonical.value))
    ensures Partitioned(BuiltLane(l, id, deps, a))
    ensures id in BuiltLane(l, id, deps, a).live <==> deps != [] && BuildSucceeds(deps, a)
  {
    if Reserves(deps, a) {
      ReserveKeepsPartition(l, id, |deps|, a.canonical.value);
      AbortKeepsPartition(Reserve(l, id, |deps|, a.canonical.value), id);
    }
  }

  /**
    Whatever the outside answers, a command keeps the lane partitioned, and a
    release leaves a reservation behind exactly when the builder accepted it with
    all its `putInbox` transactions built.
   */
  lemma CommandLeavesReservationExactlyWhen(l: Lane, cmd: Command, a: Answers)
    requires Partitioned(l) && (cmd.Release? ==> cmd.id !in l.live)
    requires cmd.Release? && Reserves(cmd.deps, a) ==> Fits(l, |cmd.deps|, a.canonical.value)
    ensures Partitioned(AppliedLane(l, cmd, a))
    ensures cmd.Release? ==>
              (cmd.id in AppliedLane(l, cmd, a).live <==>
                  a.hasBuilder && a.accepted && cmd.deps != [] && BuildSucceeds(cmd.deps, a))
    ensures cmd.AbortXt? ==>
            (cmd.id in AppliedLane(l, cmd, a).live <==> cmd.id in l.live && a.hasBuilder && !a.accepted)
  {
    match cmd
    case Release(id, deps) =>
      BuiltKeepsPartition(l, id, deps, a);
      AbortKeepsPartition(BuiltLane(l, id, deps, a), id);
    case AbortXt(id) => AbortKeepsPartition(l, id);
  }
}
