/** Whole runs of the nonce lane between two resets. */
module NonceRuns {
  import opened Prelude
  import opened NonceLane

  datatype Event =
    | Reserved(id: Id, count: nat, canonical: u64)
    | FetchFailed(id: Id)
    | Confirmed(id: Id)
    | Aborted(id: Id)

  ghost function Step(l: Lane, e: Event): Lane {
    match e
    case Reserved(id, count, canonical) => Reserve(l, id, count, canonical)
    case FetchFailed(_) => l
    case Confirmed(id) => Confirm(l, id)
    case Aborted(id) => Abort(l, id)
  }

  /** The lane after the first `k` events. */
  ghost function After(es: seq<Event>, k: nat): Lane
    requires k <= |es|
  {
    if k == 0 then EMPTY_LANE else Step(After(es, k - 1), es[k - 1])
  }

  /**
    What the caller owes the lane: a non-zero count, an id without a live
    reservation, and a run that fits in a machine word.
   */
  ghost predicate Legal(es: seq<Event>) {
    forall k :: 0 <= k < |es| && es[k].Reserved? ==> LegalReserve(After(es, k), es[k])
  }

  ghost predicate LegalReserve(l: Lane, e: Event)
    requires e.Reserved?
  {
    e.count > 0 && e.id !in l.live && Fits(l, e.count, e.canonical)
  }

  /** Event `k` hands out nonce `n`. */
  ghost predicate Issues(es: seq<Event>, k: int, n: int)
    requires 0 <= k < |es|
  {
    es[k].Reserved? && var s := ReserveStart(After(es, k), es[k].count, es[k].canonical); s <= n < s + es[k].count
  }

  /** Event `k` is an abort that takes nonce `n` back from reservation `id`. */
  ghost predicate TakesBack(es: seq<Event>, k: int, id: Id, n: int)
    requires 0 <= k < |es|
  {
    es[k] == Aborted(id) && var l := After(es, k); id in l.live && InRange(n, l.live[id])
  }

  /** In every reachable lane each nonce from the floor up is in exactly one place. */
  lemma {:induction false} ReachableIsPartitioned(es: seq<Event>, k: nat)
    requires Legal(es) && k <= |es|
    ensures Partitioned(After(es, k))
  {
    if k > 0 {
      ReachableIsPartitioned(es, k - 1);
      var l := After(es, k - 1);
      match es[k - 1]
      case Reserved(id, count, canonical) =>
        assert LegalReserve(l, es[k - 1]);
        ReserveKeepsPartition(l, id, count, canonical);
      case FetchFailed(_) =>
      case Confirmed(id) => ConfirmKeepsPartition(l, id);
      case Aborted(id) => AbortKeepsPartition(l, id);
    }
  }

  ghost predicate Kept(l: Lane, id: Id, n: int) {
    n < l.floor || (id in l.live && InRange(n, l.live[id]))
  }

  /** One event keeps a nonce with its holder, or below the floor, unless it aborts that holder. */
  lemma StepKeeps(l: Lane, e: Event, id: Id, n: int)
    requires Kept(l, id, n)
    requires e.Reserved? ==> LegalReserve(l, e)
    requires e == Aborted(id) && id in l.live ==> !InRange(n, l.live[id])
    ensures Kept(Step(l, e), id, n)
    ensures l.floor <= Step(l, e).floor
  {
  }

  lemma {:induction false} HolderKeepsNonce(es: seq<Event>, i: nat, k: nat, n: int)
    requires Legal(es) && i < k <= |es| && Issues(es, i, n)
    requires forall t :: i < t < k ==> !TakesBack(es, t, es[i].id, n)
    ensures Kept(After(es, k), es[i].id, n)
    decreases k
  {
    if k == i + 1 {
      assert LegalReserve(After(es, i), es[i]);
    } else {
      HolderKeepsNonce(es, i, k - 1, n);
      if es[k - 1].Reserved? { assert LegalReserve(After(es, k - 1), es[k - 1]); }
      assert !TakesBack(es, k - 1, es[i].id, n);
      StepKeeps(After(es, k - 1), es[k - 1], es[i].id, n);
    }
  }

  /** A nonce is issued a second time only after an abort took it back from its first holder. */
  lemma NoDoubleIssue(es: seq<Event>, i: nat, j: nat, n: int)
    requires Legal(es) && i < j < |es| && Issues(es, i, n) && Issues(es, j, n)
    ensures exists t :: i < t < j && TakesBack(es, t, es[i].id, n)
  {
    var l := After(es, j);
    ReachableIsPartitioned(es, j);
    assert LegalReserve(l, es[j]);
    ReserveKeepsPartition(l, es[j].id, es[j].count, es[j].canonical);
    assert !Held(l, n) && l.floor <= n;
    assert !Kept(l, es[i].id, n);
    if forall t :: i < t < j ==> !TakesBack(es, t, es[i].id, n) {
      HolderKeepsNonce(es, i, j, n);
      assert false;
    }
  }

  lemma {:induction false} FloorOnlyRises(es: seq<Event>, i: nat, k: nat)
    requires i <= k <= |es|
    ensures After(es, i).floor <= After(es, k).floor
    decreases k
  {
    if i < k { FloorOnlyRises(es, i, k - 1); }
  }

  /** Issued nonces lie at or above every canonical value fetched so far and every confirmed end. */
  lemma IssuedAboveChain(es: seq<Event>, i: nat, j: nat, n: int)
    requires Legal(es) && i < j < |es| && Issues(es, j, n)
    ensures es[i].Reserved? ==> es[i].canonical <= n
    ensures es[i].Confirmed? && es[i].id in After(es, i).live ==> After(es, i).live[es[i].id].end <= n
  {
    FloorOnlyRises(es, i + 1, j);
    ReachableIsPartitioned(es, j);
    assert LegalReserve(After(es, j), es[j]);
    ReserveKeepsPartition(After(es, j), es[j].id, es[j].count, es[j].canonical);
  }

  /** A second reservation for a live id, which `reserve` does not refuse, loses the nonces of the first. */
  lemma ReusedIdLosesNonces(id: Id)
    ensures var es := [Reserved(id, 2, 0), Reserved(id, 1, 0)];
            && !Legal(es) && Claimed(After(es, 1), 0) && After(es, 2).floor == 0
            && !Claimed(After(es, 2), 0) && !NoneStranded(After(es, 2))
  {
    var es := [Reserved(id, 2, 0), Reserved(id, 1, 0)];
    FirstReservation(es, id);
    var l := After(es, 1);
    var a := Anchor(l, 0);
    assert a.live == map[id := Range(0, 2)] && a.recycled == {};
    assert InRange(0, l.live[id]);
    assert After(es, 2).live == map[id := Range(2, 3)];
    assert InRange(2, After(es, 2).live[id]) && Claimed(After(es, 2), 2);
    assert !LegalReserve(After(es, 1), es[1]);
  }

  lemma FirstReservation(es: seq<Event>, id: Id)
    requires |es| >= 1 && es[0] == Reserved(id, 2, 0)
    ensures After(es, 1) == Lane(0, true, map[id := Range(0, 2)], {})
  {
    assert After(es, 0) == EMPTY_LANE;
    var a := Anchor(EMPTY_LANE, 0);
    assert a.live == map[] && a.recycled == {};
    assert After(es, 1).live == map[id := Range(0, 2)] && After(es, 1).recycled == {};
  }
}
