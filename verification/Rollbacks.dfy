/** What a rollback leaves of the nonce lane: builder aborts one by one, then a reset. */
module Rollbacks {
  import opened Prelude
  import opened Xt
  import N = NonceLane
  import R = NonceRuns

  // ---------- On its own ----------

  /**
    The tail of a rollback: builder aborts one by one, stopping at the first error;
    the lane is reset only at the end.
   */
  function RollbackLane(l: N.Lane, ids: seq<Id>, ok: seq<bool>): N.Lane
    requires |ok| == |ids|
    decreases |ids|
  {
    if ids == [] then N.EMPTY_LANE
    else if !ok[0] then l
    else RollbackLane(N.Abort(l, ids[0]), ids[1..], ok[1..])
  }

  /** How many of the aborts succeed before the first error. */
  function Completed(ok: seq<bool>): (n: nat)
    ensures n <= |ok|
  {
    if ok == [] || !ok[0] then 0 else 1 + Completed(ok[1..])
  }

  /** An error leaves the lane as the aborts before it made it: same floor, the other reservations still live. */
  lemma {:induction false} RollbackLaneAfter(l: N.Lane, ids: seq<Id>, ok: seq<bool>)
    requires |ok| == |ids| && N.Partitioned(l)
    ensures Completed(ok) == |ok| ==> RollbackLane(l, ids, ok) == N.EMPTY_LANE
    ensures Completed(ok) < |ok| ==>
              var r := RollbackLane(l, ids, ok);
              && N.Partitioned(r) && r.floor == l.floor
              && forall id :: id in r.live <==> id in l.live && id !in ids[..Completed(ok)]
    decreases |ids|
  {
    if ids != [] && ok[0] {
      N.AbortKeepsPartition(l, ids[0]);
      RollbackLaneAfter(N.Abort(l, ids[0]), ids[1..], ok[1..]);
      assert ids[..Completed(ok)] == [ids[0]] + ids[1..][..Completed(ok[1..])];
    }
  }

  /** The next reservation starts at the chain's nonce, whatever that is and however long the run. */
  ghost predicate FollowsChain(l: N.Lane) {
    forall canonical: u64, count: nat :: count > 0 ==> N.ReserveStart(l, count, canonical) == canonical
  }

  lemma EmptyLaneFollows(l: N.Lane, count: nat, canonical: u64)
    requires N.Partitioned(l) && l.floor == 0 && l.live == map[] && count > 0
    ensures N.ReserveStart(l, count, canonical) == canonical
  {
    var s: int := N.ReserveStart(l, count, canonical);
    N.LeastFree(l, count, canonical);
    assert !N.Held(l, canonical) && !N.Held(l, s - 1);
  }

  lemma LiveRangeMovesStart(l: N.Lane, id: Id)
    requires N.Partitioned(l) && id in l.live
    ensures N.ReserveStart(l, 2, 0) > 0
  {
    var a := N.Anchor(l, 0);
    if l.floor == 0 {
      assert l.live[id].start < l.live[id].end;
      assert id in a.live;
    }
  }

  lemma FollowsChainExactlyWhen(l: N.Lane)
    requires N.Partitioned(l)
    ensures FollowsChain(l) <==> l.floor == 0 && l.live == map[]
  {
    if l.floor != 0 {
      N.LeastFree(l, 1, 0);
      assert N.ReserveStart(l, 1, 0) != 0;
    } else if l.live != map[] {
      var id :| id in l.live;
      LiveRangeMovesStart(l, id);
      assert N.ReserveStart(l, 2, 0) != 0;
    } else {
      forall canonical: u64, count: nat | count > 0 ensures N.ReserveStart(l, count, canonical) == canonical {
        EmptyLaneFollows(l, count, canonical);
      }
    }
  }

  /**
    A rollback is meant to let the next reservation start at the rewound chain's
    nonce. It does so, for every nonce and every count, exactly when all builder
    aborts succeeded, or the lane had no floor and every reservation was given
    back before the first error.
   */
  lemma RollbackReanchorsExactlyWhen(l: N.Lane, ids: seq<Id>, ok: seq<bool>)
    requires |ok| == |ids| && N.Partitioned(l)
    ensures FollowsChain(RollbackLane(l, ids, ok)) <==>
            || (forall k :: 0 <= k < |ok| ==> ok[k])
            || (l.floor == 0 && forall id :: id in l.live ==> id in ids[..Completed(ok)])
  {
    RollbackLaneAfter(l, ids, ok);
    CompletedAll(ok);
    var r := RollbackLane(l, ids, ok);
    if Completed(ok) == |ok| {
      EmptyLanePartitioned();
      FollowsChainExactlyWhen(N.EMPTY_LANE);
    } else {
      FollowsChainExactlyWhen(r);
      assert r.live == map[] <==> forall id :: id in l.live ==> id in ids[..Completed(ok)];
    }
  }

  lemma EmptyLanePartitioned()
    ensures N.Partitioned(N.EMPTY_LANE)
  {
  }

  lemma {:induction false} CompletedAll(ok: seq<bool>)
    ensures Completed(ok) == |ok| <==> forall k :: 0 <= k < |ok| ==> ok[k]
  {
    if ok != [] && ok[0] {
      CompletedAll(ok[1..]);
      assert forall k :: 1 <= k < |ok| ==> ok[k] == ok[1..][k - 1];
      assert forall k :: 0 <= k < |ok| - 1 ==> ok[1..][k] == ok[k + 1];
    }
  }

  // ---------- With other commands in between ----------

  /** One abort of the tail: what other commands did to the lane before it, and the builder's answer. */
  datatype Stage = Stage(before: seq<R.Event>, id: Id, ok: bool)

  predicate AllOk(stages: seq<Stage>) {
    forall k :: 0 <= k < |stages| ==> stages[k].ok
  }

  ghost function Play(l: N.Lane, es: seq<R.Event>): N.Lane
    decreases |es|
  {
    if es == [] then l else Play(R.Step(l, es[0]), es[1..])
  }

  /** Other commands keep to what the lane asks of its callers. */
  ghost predicate LegalPlay(l: N.Lane, es: seq<R.Event>)
    decreases |es|
  {
    es == [] || ((es[0].Reserved? ==> R.LegalReserve(l, es[0])) && LegalPlay(R.Step(l, es[0]), es[1..]))
  }

  /** The lane after a rollback whose aborts and reset are interleaved with other commands. */
  ghost function InterleavedLane(l: N.Lane, stages: seq<Stage>): N.Lane
    decreases |stages|
  {
    if stages == [] then N.EMPTY_LANE
    else
      var l1 := Play(l, stages[0].before);
      if !stages[0].ok then l1 else InterleavedLane(N.Abort(l1, stages[0].id), stages[1..])
  }

  /** The lane when the first error ends the tail, or, after the commands in `last`, right before the reset. */
  ghost function Reached(l: N.Lane, stages: seq<Stage>, last: seq<R.Event>): N.Lane
    decreases |stages|
  {
    if stages == [] then Play(l, last)
    else
      var l1 := Play(l, stages[0].before);
      if !stages[0].ok then l1 else Reached(N.Abort(l1, stages[0].id), stages[1..], last)
  }

  ghost predicate LegalStages(l: N.Lane, stages: seq<Stage>, last: seq<R.Event>)
    decreases |stages|
  {
    if stages == [] then LegalPlay(l, last)
    else
      && LegalPlay(l, stages[0].before)
      && LegalStages(N.Abort(Play(l, stages[0].before), stages[0].id), stages[1..], last)
  }

  function Uninterrupted(ids: seq<Id>, ok: seq<bool>): seq<Stage>
    requires |ok| == |ids|
  {
    seq(|ids|, i requires 0 <= i < |ids| => Stage([], ids[i], ok[i]))
  }

  /** Without other commands it is the lane of the rollback on its own. */
  lemma {:induction false} AloneIsInterleaved(l: N.Lane, ids: seq<Id>, ok: seq<bool>)
    requires |ok| == |ids|
    ensures RollbackLane(l, ids, ok) == InterleavedLane(l, Uninterrupted(ids, ok))
    decreases |ids|
  {
    if ids != [] {
      AloneIsInterleaved(N.Abort(l, ids[0]), ids[1..], ok[1..]);
      assert Uninterrupted(ids, ok)[1..] == Uninterrupted(ids[1..], ok[1..]);
    }
  }

  lemma StepPartitioned(l: N.Lane, e: R.Event)
    requires N.Partitioned(l) && (e.Reserved? ==> R.LegalReserve(l, e))
    ensures N.Partitioned(R.Step(l, e))
  {
    match e
    case Reserved(id, count, canonical) => N.ReserveKeepsPartition(l, id, count, canonical);
    case FetchFailed(_) =>
    case Confirmed(id) => N.ConfirmKeepsPartition(l, id);
    case Aborted(id) => N.AbortKeepsPartition(l, id);
  }

  lemma {:induction false} PlayPartitioned(l: N.Lane, es: seq<R.Event>)
    requires N.Partitioned(l) && LegalPlay(l, es)
    ensures N.Partitioned(Play(l, es))
    decreases |es|
  {
    if es != [] {
      StepPartitioned(l, es[0]);
      PlayPartitioned(R.Step(l, es[0]), es[1..]);
    }
  }

  lemma {:induction false} ReachedPartitioned(l: N.Lane, stages: seq<Stage>, last: seq<R.Event>)
    requires N.Partitioned(l) && LegalStages(l, stages, last)
    ensures N.Partitioned(Reached(l, stages, last))
    decreases |stages|
  {
    if stages == [] {
      PlayPartitioned(l, last);
    } else {
      PlayPartitioned(l, stages[0].before);
      N.AbortKeepsPartition(Play(l, stages[0].before), stages[0].id);
      ReachedPartitioned(N.Abort(Play(l, stages[0].before), stages[0].id), stages[1..], last);
    }
  }

  lemma {:induction false} InterleavedIsReached(l: N.Lane, stages: seq<Stage>, last: seq<R.Event>)
    ensures InterleavedLane(l, stages) == if AllOk(stages) then N.EMPTY_LANE else Reached(l, stages, last)
    decreases |stages|
  {
    if stages != [] {
      InterleavedIsReached(N.Abort(Play(l, stages[0].before), stages[0].id), stages[1..], last);
      assert forall k :: 1 <= k < |stages| ==> stages[k] == stages[1..][k - 1];
      assert forall k :: 0 <= k < |stages| - 1 ==> stages[1..][k] == stages[k + 1];
    }
  }

  /**
    Whatever other commands reserve, confirm or give back meanwhile, the next
    reservation starts at the chain's nonce, for every nonce and every count,
    exactly when all builder aborts succeeded or the first error finds a lane
    without a floor and without reservations.
   */
  lemma InterleavedReanchorsExactlyWhen(l: N.Lane, stages: seq<Stage>, last: seq<R.Event>)
    requires N.Partitioned(l) && LegalStages(l, stages, last)
    ensures FollowsChain(InterleavedLane(l, stages)) <==>
            AllOk(stages) || (Reached(l, stages, last).floor == 0 && Reached(l, stages, last).live == map[])
  {
    InterleavedIsReached(l, stages, last);
    ReachedPartitioned(l, stages, last);
    EmptyLanePartitioned();
    FollowsChainExactlyWhen(InterleavedLane(l, stages));
  }

  // ---------- What the reset forgets ----------

  /** A reservation from lane `l` can be given a nonce that `held` holds for another XT. */
  ghost predicate CanReissue(held: N.Lane, l: N.Lane) {
    exists canonical: u64 :: N.Held(held, N.ReserveStart(l, 1, canonical))
  }

  /**
    The reset also forgets what other commands reserved meanwhile: after a rollback
    without errors a nonce that is held right before the reset can be issued again
    exactly when some reservation is live there.
   */
  lemma ResetReissuesExactlyWhen(l: N.Lane, stages: seq<Stage>, last: seq<R.Event>)
    requires N.Partitioned(l) && LegalStages(l, stages, last) && AllOk(stages)
    ensures CanReissue(Reached(l, stages, last), InterleavedLane(l, stages)) <==> Reached(l, stages, last).live != map[]
  {
    var r := Reached(l, stages, last);
    ReachedPartitioned(l, stages, last);
    InterleavedIsReached(l, stages, last);
    if r.live != map[] {
      var id :| id in r.live;
      var start := r.live[id].start;
      assert start < r.live[id].end && N.InRange(start, r.live[id]);
      EmptyLanePartitioned();
      EmptyLaneFollows(N.EMPTY_LANE, 1, start);
      assert N.Held(r, N.ReserveStart(InterleavedLane(l, stages), 1, start));
    }
  }

  // ---------- Witnesses ----------

  /** The lane after one reservation of `count` nonces at a chain nonce of zero. */
  lemma FirstLane(id: Id, count: nat)
    requires 0 < count <= U64_MAX
    ensures var l := R.Step(N.EMPTY_LANE, R.Reserved(id, count, 0));
            && l == N.Lane(0, true, map[id := N.Range(0, count)], {})
            && R.LegalReserve(N.EMPTY_LANE, R.Reserved(id, count, 0))
  {
    assert N.Anchor(N.EMPTY_LANE, 0).live == map[] && N.Anchor(N.EMPTY_LANE, 0).recycled == {};
    assert N.ReserveStart(N.EMPTY_LANE, count, 0) == 0;
  }

  lemma FirstOf(es: seq<R.Event>)
    requires es != []
    ensures R.After(es, 1) == R.Step(N.EMPTY_LANE, es[0])
  {
    assert R.After(es, 0) == N.EMPTY_LANE;
  }

  /** A lane without a floor whose one reservation the builder fails to drop: the next reservation starts past it. */
  lemma SurvivingRangeMovesReservation(id: Id)
    ensures var l := R.After([R.Reserved(id, 3, 0)], 1);
            l.floor == 0 && N.ReserveStart(RollbackLane(l, [id], [false]), 1, 0) >= 3
  {
    FirstOf([R.Reserved(id, 3, 0)]);
    FirstLane(id, 3);
    var l := R.After([R.Reserved(id, 3, 0)], 1);
    var a := N.Anchor(l, 0);
    assert id in a.live && a.live[id].end == 3 && a.recycled == {};
  }

  /** A confirmed XT left a floor: after a failed abort even a chain nonce of zero is answered with it. */
  lemma SurvivingFloorMovesReservation(id: Id, other: Id, floor: u64)
    requires 0 < floor
    ensures var es := [R.Reserved(id, floor, 0), R.Confirmed(id)];
            R.Legal(es) && N.ReserveStart(RollbackLane(R.After(es, 2), [other], [false]), 1, 0) == floor
  {
    var es := [R.Reserved(id, floor, 0), R.Confirmed(id)];
    FirstOf(es);
    FirstLane(id, floor);
    assert R.After(es, 0) == N.EMPTY_LANE;
    var l := R.After(es, 2);
    assert l.floor == floor && l.live == map[] && l.recycled == {};
    var a := N.Anchor(l, 0);
    assert a.live == map[] && a.recycled == {};
  }

  /** A reservation made between the last abort and the reset: the next one is given its nonce again. */
  lemma ReservationBeforeResetIsReissued(id: Id, other: Id)
    ensures var stages, last := [Stage([], id, true)], [R.Reserved(other, 1, 0)];
            && LegalStages(N.EMPTY_LANE, stages, last)
            && N.Held(Reached(N.EMPTY_LANE, stages, last), 0)
            && N.ReserveStart(InterleavedLane(N.EMPTY_LANE, stages), 1, 0) == 0
  {
    var stages, last := [Stage([], id, true)], [R.Reserved(other, 1, 0)];
    assert stages[1..] == [] && last[1..] == [];
    assert N.Abort(N.EMPTY_LANE, id) == N.EMPTY_LANE;
    FirstLane(other, 1);
    var l := R.Step(N.EMPTY_LANE, last[0]);
    assert Play(N.EMPTY_LANE, last) == Play(l, []) == l;
    assert LegalPlay(l, []) && LegalPlay(N.EMPTY_LANE, last) && LegalStages(N.EMPTY_LANE, [], last);
    assert Reached(N.EMPTY_LANE, stages, last) == Reached(N.EMPTY_LANE, [], last) == l;
    assert N.InRange(0, l.live[other]);
    EmptyLanePartitioned();
    EmptyLaneFollows(N.EMPTY_LANE, 1, 0);
  }
}
