/**
  The `putInbox` nonce lane: live reservations, a pool of recycled nonces and a
  floor that never moves down. `Lane` is the value of the manager's `Inner`;
  `DeferredNonceManager` is the object the source updates in place.
 */
module NonceLane {
  import opened Prelude

  type Id = bytes

  datatype Range = Range(start: u64, end: u64)

  datatype Lane = Lane(floor: u64, initialized: bool, live: map<Id, Range>, recycled: set<u64>)

  const EMPTY_LANE: Lane := Lane(0, false, map[], {})

  // ---------- Reading a lane ----------

  predicate InRange(n: int, r: Range) {
    r.start <= n < r.end
  }

  /** Some live reservation holds nonce `n`. */
  ghost predicate Held(l: Lane, n: int) {
    exists id :: id in l.live && InRange(n, l.live[id])
  }

  /** Nonce `n` is accounted for: held by a reservation or waiting in the pool. */
  ghost predicate Claimed(l: Lane, n: int) {
    Held(l, n) || n in l.recycled
  }

  // ---------- The invariant ----------

  /** Reservations are non-empty, pairwise disjoint and disjoint from the pool. */
  ghost predicate Disjoint(l: Lane) {
    && (forall id :: id in l.live ==> l.live[id].start < l.live[id].end)
    && (forall i, j, n: int :: i in l.live && j in l.live && InRange(n, l.live[i]) && InRange(n, l.live[j]) ==> i == j)
    && (forall id, n: int :: id in l.live && InRange(n, l.live[id]) ==> n !in l.recycled)
  }

  /** From the floor up to the highest nonce accounted for, nothing is missing. */
  ghost predicate NoneStranded(l: Lane) {
    forall n: int, m: int :: l.floor <= n <= m && Claimed(l, m) ==> Claimed(l, n)
  }

  ghost predicate Partitioned(l: Lane) {
    Disjoint(l) && NoneStranded(l)
  }

  // ---------- The operations on values ----------

  /** Largest end of a live range, or the floor when that is higher. */
  ghost function LiveEnd(live: map<Id, Range>, floor: u64): (e: u64)
    ensures floor <= e
    ensures forall id :: id in live ==> live[id].end <= e
    ensures e == floor || exists id :: id in live && live[id].end == e
    decreases |live|
  {
    if live == map[] then floor
    else
      var id :| id in live;
      var rest := LiveEnd(live - {id}, floor);
      assert forall k :: k in live ==> k == id || k in live - {id};
      if live[id].end <= rest then rest else live[id].end
  }

  ghost function Least(s: set<u64>): (m: u64)
    requires s != {}
    ensures m in s
    ensures forall n :: n in s ==> m <= n
    decreases |s|
  {
    var x :| x in s;
    if s == {x} then x
    else
      var rest := Least(s - {x});
      assert forall n :: n in s ==> n == x || n in s - {x};
      if x <= rest then x else rest
  }

  /** Raise the floor to the fetched canonical nonce and drop what lies below it. */
  function Anchor(l: Lane, canonical: u64): Lane {
    var floor := if l.floor < canonical then canonical else l.floor;
    Lane(floor, true,
         map id | id in l.live && l.live[id].end > floor :: l.live[id],
         set n | n in l.recycled && n >= floor)
  }

  ghost function StartFor(l: Lane, count: nat): u64 {
    if count == 1 && l.recycled != {} then Least(l.recycled) else LiveEnd(l.live, l.floor)
  }

  /** The grant: the nonces `[start, end)` leave the pool and are held by `id`. */
  function Grant(l: Lane, id: Id, start: u64, count: nat): Lane {
    var end := SaturatingAdd(start, count);
    l.(live := l.live[id := Range(start, end)],
       recycled := set n | n in l.recycled && !(start <= n < end))
  }

  ghost function ReserveStart(l: Lane, count: nat, canonical: u64): u64 {
    StartFor(Anchor(l, canonical), count)
  }

  ghost function Reserve(l: Lane, id: Id, count: nat, canonical: u64): Lane {
    Grant(Anchor(l, canonical), id, ReserveStart(l, count, canonical), count)
  }

  function Confirm(l: Lane, id: Id): Lane {
    if id in l.live then
      l.(live := l.live - {id}, floor := if l.floor < l.live[id].end then l.live[id].end else l.floor)
    else l
  }

  function Abort(l: Lane, id: Id): Lane {
    if id in l.live then
      var r := l.live[id];
      l.(live := l.live - {id},
         recycled := l.recycled + set n: u64 | r.start <= n < r.end && InRange(n, r) && n >= l.floor)
    else l
  }

  /** The reservation's end fits in a machine word, so it is not cut short. */
  ghost predicate Fits(l: Lane, count: nat, canonical: u64) {
    ReserveStart(l, count, canonical) + count <= U64_MAX
  }

  // ---------- Every operation keeps the partition ----------

  lemma AnchorKeepsPartition(l: Lane, canonical: u64)
    requires Partitioned(l)
    ensures Partitioned(Anchor(l, canonical))
    ensures forall n: int :: n >= Anchor(l, canonical).floor ==> (Held(Anchor(l, canonical), n) <==> Held(l, n))
  {
    var a := Anchor(l, canonical);
    assert forall id :: id in a.live ==> id in l.live && a.live[id] == l.live[id];
    forall n: int | n >= a.floor
      ensures Held(a, n) <==> Held(l, n)
      ensures Claimed(a, n) <==> Claimed(l, n)
    {
      if Held(l, n) {
        var id :| id in l.live && InRange(n, l.live[id]);
        assert id in a.live && InRange(n, a.live[id]);
      }
    }
  }

  /** Below the fresh start everything from the floor up is accounted for; above it nothing is held. */
  lemma FreshStart(l: Lane, n: int)
    requires Partitioned(l)
    requires forall id :: id in l.live ==> l.live[id].end > l.floor
    ensures LiveEnd(l.live, l.floor) <= n ==> !Held(l, n)
    ensures l.floor <= n < LiveEnd(l.live, l.floor) ==> Claimed(l, n)
    ensures LiveEnd(l.live, l.floor) > l.floor ==> Held(l, LiveEnd(l.live, l.floor) - 1)
  {
    var e := LiveEnd(l.live, l.floor);
    if e > l.floor {
      var id :| id in l.live && l.live[id].end == e;
      assert InRange(e - 1, l.live[id]);
      assert Claimed(l, e - 1);
    }
  }

  lemma GrantKeepsPartition(l: Lane, id: Id, count: nat)
    requires Partitioned(l)
    requires forall k :: k in l.live ==> l.live[k].end > l.floor
    requires forall n :: n in l.recycled ==> n >= l.floor
    requires id !in l.live && count > 0
    requires StartFor(l, count) + count <= U64_MAX
    ensures Partitioned(Grant(l, id, StartFor(l, count), count))
    ensures forall n: int :: StartFor(l, count) <= n < StartFor(l, count) + count ==> !Held(l, n)
    ensures StartFor(l, count) >= l.floor
  {
    var start := StartFor(l, count);
    var g := Grant(l, id, start, count);
    forall n: int | start <= n < start + count ensures !Held(l, n) {
      FreshStart(l, n);
    }
    forall n: int ensures Claimed(g, n) <==> Claimed(l, n) || start <= n < start + count {
      GrantClaims(l, id, start, count, n);
    }
    forall n: int, m: int | g.floor <= n <= m && Claimed(g, m) ensures Claimed(g, n) {
      if !Claimed(l, m) {
        FreshStart(l, n);
        if n < start {
          assert start == LiveEnd(l.live, l.floor) || Claimed(l, start);
          assert Claimed(l, n);
        }
      }
    }
  }

  lemma GrantClaims(l: Lane, id: Id, start: u64, count: nat, n: int)
    requires id !in l.live && start + count <= U64_MAX
    ensures Claimed(Grant(l, id, start, count), n) <==> Claimed(l, n) || start <= n < start + count
  {
    var g := Grant(l, id, start, count);
    if start <= n < start + count {
      assert InRange(n, g.live[id]);
    }
    if Held(l, n) {
      var k :| k in l.live && InRange(n, l.live[k]);
      assert g.live[k] == l.live[k];
    }
    if Held(g, n) {
      var k :| k in g.live && InRange(n, g.live[k]);
      assert k == id || g.live[k] == l.live[k];
    }
  }

  /** A reservation for an id that is not live keeps the partition and issues unheld nonces only. */
  lemma ReserveKeepsPartition(l: Lane, id: Id, count: nat, canonical: u64)
    requires Partitioned(l) && id !in l.live && count > 0 && Fits(l, count, canonical)
    ensures Partitioned(Reserve(l, id, count, canonical))
    ensures var s := ReserveStart(l, count, canonical);
            forall n: int :: s <= n < s + count ==> !Held(l, n) && l.floor <= n && canonical <= n
  {
    var a := Anchor(l, canonical);
    AnchorKeepsPartition(l, canonical);
    GrantKeepsPartition(a, id, count);
  }

  lemma ConfirmKeepsPartition(l: Lane, id: Id)
    requires Partitioned(l)
    ensures Partitioned(Confirm(l, id))
    ensures forall n: int :: Held(Confirm(l, id), n) ==> Held(l, n)
    ensures id in l.live ==> Confirm(l, id).floor >= l.live[id].end
  {
    var c := Confirm(l, id);
    forall n: int | Held(c, n) ensures Held(l, n) {
      var k :| k in c.live && InRange(n, c.live[k]);
      assert k in l.live && l.live[k] == c.live[k];
    }
    assert forall n: int :: Claimed(c, n) ==> Claimed(l, n);
    forall n: int | n >= c.floor && Claimed(l, n) ensures Claimed(c, n) {
      if Held(l, n) {
        var k :| k in l.live && InRange(n, l.live[k]);
        assert k in c.live && InRange(n, c.live[k]);
      }
    }
  }

  lemma AbortKeepsPartition(l: Lane, id: Id)
    requires Partitioned(l)
    ensures Partitioned(Abort(l, id))
    ensures forall n: int :: n >= l.floor ==> (Claimed(Abort(l, id), n) <==> Claimed(l, n))
    ensures id in l.live ==> forall n: int :: InRange(n, l.live[id]) && n >= l.floor ==> n in Abort(l, id).recycled
  {
    var c := Abort(l, id);
    forall n: int | n >= l.floor ensures Claimed(c, n) <==> Claimed(l, n) {
      if Held(l, n) {
        var k :| k in l.live && InRange(n, l.live[k]);
        assert k == id || (k in c.live && InRange(n, c.live[k]));
      }
      if Held(c, n) {
        var k :| k in c.live && InRange(n, c.live[k]);
        assert k in l.live && l.live[k] == c.live[k];
      }
    }
  }

  // ---------- What a reservation returns ----------

  /**
    A single nonce is the least one at or above the floor that no reservation
    holds; a longer run starts at the least point above which nothing is held.
   */
  lemma LeastFree(l: Lane, count: nat, canonical: u64)
    requires Partitioned(l) && count > 0
    ensures var s := ReserveStart(l, count, canonical);
            var floor := Anchor(l, canonical).floor;
            && floor <= s
            && (count == 1 ==> !Held(l, s) && forall n: int :: floor <= n < s ==> Held(l, n))
            && (count > 1 ==> (forall n: int :: s <= n ==> !Held(l, n)) && (s > floor ==> Held(l, s - 1)))
  {
    var a := Anchor(l, canonical);
    AnchorKeepsPartition(l, canonical);
    var s := StartFor(a, count);
    var e := LiveEnd(a.live, a.floor);
    forall n: int | a.floor <= n
      ensures e <= n ==> !Held(l, n)
      ensures n < e ==> Claimed(a, n)
    {
      FreshStart(a, n);
    }
    FreshStart(a, e);
    if count == 1 && a.recycled != {} {
      assert Claimed(a, s);
      forall n: int | a.floor <= n < s ensures Held(l, n) {
        assert Claimed(a, n);
      }
    }
  }

  /**
    `reserve` overwrites an entry of the same id. It loses track of no nonce at or
    above the floor exactly when the id has no reservation reaching past the floor.
   */
  lemma ReserveForgetsExactlyWhenLive(l: Lane, id: Id, count: nat, canonical: u64)
    requires Partitioned(l) && count > 0 && Fits(l, count, canonical)
    ensures var r := Reserve(l, id, count, canonical);
            (forall n: int :: r.floor <= n && Claimed(l, n) ==> Claimed(r, n)) <==> id !in Anchor(l, canonical).live
  {
    var a := Anchor(l, canonical);
    var r := Reserve(l, id, count, canonical);
    AnchorKeepsPartition(l, canonical);
    if id !in a.live {
      forall n: int | r.floor <= n && Claimed(l, n) ensures Claimed(r, n) {
        GrantClaims(a, id, StartFor(a, count), count, n);
      }
    } else {
      var lost := a.live[id].end - 1;
      OverwriteForgets(a, id, count);
      assert Held(l, lost) by { assert InRange(lost, l.live[id]); }
    }
  }

  lemma OverwriteForgets(a: Lane, id: Id, count: nat)
    requires Partitioned(a) && count > 0 && id in a.live
    requires forall k :: k in a.live ==> a.live[k].end > a.floor
    ensures !Claimed(Grant(a, id, StartFor(a, count), count), a.live[id].end - 1)
  {
    var g := Grant(a, id, StartFor(a, count), count);
    var lost := a.live[id].end - 1;
    assert InRange(lost, a.live[id]);
    forall k | k in g.live ensures !InRange(lost, g.live[k]) {
      assert k != id ==> a.live[k] == g.live[k];
    }
  }

  // ---------- The object the source updates in place ----------

  class DeferredNonceManager {
    var canonicalFloor: u64
    var initialized: bool
    var live: map<Id, Range>
    var recycled: set<u64>

    function View(): Lane
      reads this
    {
      Lane(canonicalFloor, initialized, live, recycled)
    }

    constructor ()
      ensures View() == EMPTY_LANE
    {
      canonicalFloor, initialized, live, recycled := 0, false, map[], {};
    }

    method MaxEnd() returns (e: u64)
      ensures e == LiveEnd(live, canonicalFloor)
    {
      e := canonicalFloor;
      var todo := live.Keys;
      while todo != {}
        invariant todo <= live.Keys
        invariant canonicalFloor <= e
        invariant forall id :: id in live && id !in todo ==> live[id].end <= e
        invariant e == canonicalFloor || exists id :: id in live && live[id].end == e
        decreases |todo|
      {
        var id :| id in todo;
        if e < live[id].end { e := live[id].end; }
        todo := todo - {id};
      }
    }

    method FirstRecycled() returns (n: Option<u64>)
      ensures n == if recycled == {} then None else Some(Least(recycled))
    {
      n := None;
      var todo := recycled;
      while todo != {}
        invariant todo <= recycled
        invariant n.None? <==> todo == recycled
        invariant n.Some? ==> n.value in recycled && forall m :: m in recycled && m !in todo ==> n.value <= m
        decreases |todo|
      {
        var m :| m in todo;
        if n.None? || m < n.value { n := Some(m); }
        todo := todo - {m};
      }
    }

    method AnchorTo(canonical: u64)
      modifies this
      ensures View() == Anchor(old(View()), canonical)
    {
      if canonicalFloor < canonical { canonicalFloor := canonical; }
      initialized := true;
      var floor := canonicalFloor;
      recycled := set n | n in recycled && n >= floor;
      live := map k | k in live && live[k].end > floor :: live[k];
    }

    method DropRecycled(start: u64, end: u64)
      requires start <= end
      modifies this`recycled
      ensures recycled == set m | m in old(recycled) && !(start <= m < end)
    {
      var n: int := start;
      while n < end
        invariant start <= n <= end
        invariant recycled == set m | m in old(recycled) && !(start <= m < n)
      {
        recycled := recycled - {n};
        n := n + 1;
      }
    }

    /** A failed fetch leaves the lane as it was. */
    method ReserveRun(id: Id, count: nat, canonical: Result<u64, string>) returns (r: Result<u64, string>)
      requires count > 0
      modifies this
      ensures canonical.Err? ==> r == Err(canonical.error) && View() == old(View())
      ensures canonical.Ok? ==> && r == Ok(ReserveStart(old(View()), count, canonical.value))
                                && View() == Reserve(old(View()), id, count, canonical.value)
    {
      if canonical.Err? { return Err(canonical.error); }
      AnchorTo(canonical.value);
      var start;
      var first := FirstRecycled();
      if count == 1 && first.Some? { start := first.value; } else { start := MaxEnd(); }
      var end := SaturatingAdd(start, count);
      DropRecycled(start, end);
      live := live[id := Range(start, end)];
      return Ok(start);
    }

    method ReleaseConfirmed(id: Id)
      modifies this
      ensures View() == Confirm(old(View()), id)
    {
      if id in live {
        var range := live[id];
        live := live - {id};
        if canonicalFloor < range.end { canonicalFloor := range.end; }
      }
    }

    method ReleaseAborted(id: Id)
      modifies this
      ensures View() == Abort(old(View()), id)
    {
      if id !in live { return; }
      var range := live[id];
      live := live - {id};
      var n: int := range.start;
      while n < range.end
        invariant range.start <= n && (n <= range.end || n == range.start)
        invariant recycled == old(recycled) +
                  set m: u64 | range.start <= m < range.end && InRange(m, range) && m >= canonicalFloor && m < n
        invariant canonicalFloor == old(canonicalFloor) && initialized == old(initialized) && live == old(live) - {id}
      {
        if n >= canonicalFloor { recycled := recycled + {n}; }
        n := n + 1;
      }
      assert forall m: u64 :: InRange(m, range) && m >= canonicalFloor ==> m in recycled;
    }

    method Reset()
      modifies this
      ensures View() == EMPTY_LANE
    {
      canonicalFloor, initialized, live, recycled := 0, false, map[], {};
    }
  }
}
