/** Period-scoped admission of publisher instances and the canonical XT order. */
module Admission {
  import opened Prelude

  datatype Period = Period(current: Option<u64>, lastSequence: Option<u64>)

  const CLOSED: Period := Period(None, None)

  datatype Rejection = PeriodNotInitialized | StalePeriod | FuturePeriod | StaleSequence

  function Open(p: u64): Period {
    Period(Some(p), None)
  }

  /** The error a StartInstance message meets, checked in the source's order. */
  function Refusal(s: Period, p: u64, q: u64): Option<Rejection> {
    if s.current.None? then Some(PeriodNotInitialized)
    else if p < s.current.value then Some(StalePeriod)
    else if p > s.current.value then Some(FuturePeriod)
    else if s.lastSequence.Some? && q <= s.lastSequence.value then Some(StaleSequence)
    else None
  }

  class PublisherPeriod {
    var current: Option<u64>
    var lastSequence: Option<u64>

    function View(): Period
      reads this
    {
      Period(current, lastSequence)
    }

    constructor ()
      ensures View() == CLOSED
    {
      current, lastSequence := None, None;
    }

    method StartPeriod(p: u64)
      modifies this
      ensures View() == Open(p)
    {
      current := Some(p);
      lastSequence := None;
    }

    method Close()
      modifies this
      ensures View() == CLOSED
    {
      current, lastSequence := None, None;
    }

    /** A refused message leaves the watermark alone; an accepted one becomes it. */
    method AcceptStartInstance(p: u64, q: u64) returns (r: Result<(), Rejection>)
      modifies this
      ensures r.Err? ==> Refusal(old(View()), p, q) == Some(r.error) && View() == old(View())
      ensures r.Ok? ==> Refusal(old(View()), p, q).None? && View() == Period(Some(p), Some(q))
    {
      if current.None? { return Err(PeriodNotInitialized); }
      if p < current.value { return Err(StalePeriod); }
      if p > current.value { return Err(FuturePeriod); }
      if lastSequence.Some? && q <= lastSequence.value { return Err(StaleSequence); }
      lastSequence := Some(q);
      return Ok(());
    }
  }

  // ---------- Whole runs ----------

  datatype Event = Start(p: u64) | Rollback | Instance(p: u64, q: u64)

  function Step(s: Period, e: Event): Period {
    match e
    case Start(p) => Open(p)
    case Rollback => CLOSED
    case Instance(p, q) => if Refusal(s, p, q).None? then Period(Some(p), Some(q)) else s
  }

  function After(es: seq<Event>): Period {
    if es == [] then CLOSED else Step(After(es[..|es| - 1]), es[|es| - 1])
  }

  /** The (period, sequence) pairs admitted by a run, in order. */
  function Accepted(es: seq<Event>): seq<(u64, u64)> {
    if es == [] then []
    else
      var before, e := es[..|es| - 1], es[|es| - 1];
      if e.Instance? && Refusal(After(before), e.p, e.q).None? then Accepted(before) + [(e.p, e.q)]
          else Accepted(before)
  }

  /** The period ids announced by a run, in order. */
  function Announced(es: seq<Event>): seq<u64> {
    if es == [] then []
    else
      var before, e := es[..|es| - 1], es[|es| - 1];
      if e.Start? then Announced(before) + [e.p] else Announced(before)
  }

  predicate Before(a: (u64, u64), b: (u64, u64)) {
    a.0 < b.0 || (a.0 == b.0 && a.1 < b.1)
  }

  ghost predicate Increasing(ps: seq<u64>) {
    forall i, j :: 0 <= i < j < |ps| ==> ps[i] < ps[j]
  }

  ghost predicate StrictlyOrdered(xs: seq<(u64, u64)>) {
    forall i, j :: 0 <= i < j < |xs| ==> Before(xs[i], xs[j])
  }

  function Latest(ps: seq<u64>): u64 {
    if ps == [] then 0 else ps[|ps| - 1]
  }

  /** Admitted pairs increase; the last announced period and the watermark of the open one bound them. */
  ghost predicate Bounded(announced: seq<u64>, accepted: seq<(u64, u64)>, s: Period) {
    && StrictlyOrdered(accepted)
    && (accepted != [] || s.current.Some? ==> announced != [])
    && (forall i :: 0 <= i < |accepted| ==> accepted[i].0 <= Latest(announced))
    && (s.current.Some? ==> s.current.value == Latest(announced))
    && (forall i :: 0 <= i < |accepted| && s.current == Some(accepted[i].0) ==>
          s.lastSequence.Some? && accepted[i].1 <= s.lastSequence.value)
  }

  lemma OpenBounded(announced: seq<u64>, accepted: seq<(u64, u64)>, s: Period, p: u64)
    requires Bounded(announced, accepted, s) && Increasing(announced + [p])
    ensures Bounded(announced + [p], accepted, Open(p))
  {
    var all := announced + [p];
    if announced != [] { assert all[|announced| - 1] < all[|announced|]; }
    forall i | 0 <= i < |accepted| ensures accepted[i].0 < p {
      assert accepted[i].0 <= Latest(announced);
    }
  }

  lemma AdmitBounded(announced: seq<u64>, accepted: seq<(u64, u64)>, s: Period, p: u64, q: u64)
    requires Bounded(announced, accepted, s) && Refusal(s, p, q).None?
    ensures Bounded(announced, accepted + [(p, q)], Period(Some(p), Some(q)))
  {
    forall i | 0 <= i < |accepted| ensures Before(accepted[i], (p, q)) && (accepted[i].0 == p ==> accepted[i].1 < q) {
    }
  }

  /** In every run with increasing period ids. */
  lemma {:induction false} WatermarkBoundsAccepted(es: seq<Event>)
    requires Increasing(Announced(es))
    ensures Bounded(Announced(es), Accepted(es), After(es))
  {
    if es != [] {
      var before, e := es[..|es| - 1], es[|es| - 1];
      assert Announced(before) <= Announced(es);
      WatermarkBoundsAccepted(before);
      match e
      case Start(p) => OpenBounded(Announced(before), Accepted(before), After(before), p);
      case Rollback =>
      case Instance(p, q) =>
        if Refusal(After(before), p, q).None? {
          AdmitBounded(Announced(before), Accepted(before), After(before), p, q);
        }
    }
  }

  /** A run that admits sequence 1 in every period it announces. */
  function Eager(ps: seq<u64>): seq<Event> {
    if ps == [] then [] else Eager(ps[..|ps| - 1]) + [Start(ps[|ps| - 1]), Instance(ps[|ps| - 1], 1)]
  }

  lemma EagerLast(ps: seq<u64>)
    requires ps != []
    ensures var rest, p := ps[..|ps| - 1], ps[|ps| - 1];
            && Announced(Eager(ps)) == Announced(Eager(rest)) + [p]
            && Accepted(Eager(ps)) == Accepted(Eager(rest)) + [(p, 1)]
  {
    var rest, p := ps[..|ps| - 1], ps[|ps| - 1];
    var es := Eager(ps);
    var mid := Eager(rest) + [Start(p)];
    assert es[..|es| - 1] == mid && mid[..|mid| - 1] == Eager(rest);
  }

  lemma {:induction false} EagerAdmitsAll(ps: seq<u64>)
    ensures Announced(Eager(ps)) == ps
    ensures |Accepted(Eager(ps))| == |ps| && forall i :: 0 <= i < |ps| ==> Accepted(Eager(ps))[i] == (ps[i], 1)
  {
    if ps != [] {
      EagerAdmitsAll(ps[..|ps| - 1]);
      EagerLast(ps);
      assert ps == ps[..|ps| - 1] + [ps[|ps| - 1]];
    }
  }

  /**
    `start` accepts any period id. Over all runs that announce the periods `ps`,
    with gaps, refusals and rollbacks anywhere, the admitted pairs increase
    strictly exactly when `ps` does.
   */
  lemma AdmissionOrderedExactlyWhen(ps: seq<u64>)
    ensures (forall es :: Announced(es) == ps ==> StrictlyOrdered(Accepted(es))) <==> Increasing(ps)
  {
    if Increasing(ps) {
      forall es | Announced(es) == ps ensures StrictlyOrdered(Accepted(es)) { WatermarkBoundsAccepted(es); }
    } else {
      EagerAdmitsAll(ps);
      var i, j :| 0 <= i < j < |ps| && ps[i] >= ps[j];
      var xs := Accepted(Eager(ps));
      assert !Before(xs[i], xs[j]);
    }
  }

  // ---------- What is admitted ----------

  /** Event `k` starts period `p`, nothing ends it, and each sequence number seen for it since is below `q`. */
  ghost predicate OpenSince(es: seq<Event>, p: u64, q: u64, k: nat) {
    && k < |es| && es[k] == Start(p)
    && forall j :: k < j < |es| ==> es[j].Instance? && (es[j].p == p ==> es[j].q < q)
  }

  ghost predicate Opens(es: seq<Event>, p: u64, q: u64) {
    exists k: nat :: OpenSince(es, p, q, k)
  }

  lemma OpensStep(before: seq<Event>, e: Event, p: u64, q: u64)
    ensures Opens(before + [e], p, q) <==>
            match e
            case Start(p') => p' == p
            case Rollback => false
            case Instance(p', q') => Opens(before, p, q) && (p' == p ==> q' < q)
  {
    var es := before + [e];
    if Opens(es, p, q) {
      var k: nat :| OpenSince(es, p, q, k);
      assert es[|before|] == e;
      if e.Instance? {
        assert forall j :: k < j < |before| ==> es[j] == before[j];
        assert OpenSince(before, p, q, k);
      }
    }
    if e == Start(p) { assert OpenSince(es, p, q, |before|); }
    if e.Instance? && Opens(before, p, q) && (e.p == p ==> e.q < q) {
      var k: nat :| OpenSince(before, p, q, k);
      assert OpenSince(es, p, q, k);
    }
  }

  /**
    After any run a StartInstance message is admitted exactly when its period is the
    last one started, no rollback came after that, and its sequence number is above
    every one seen for the period since, refused ones included.
   */
  lemma {:induction false} AdmittedExactlyWhen(es: seq<Event>, p: u64, q: u64)
    ensures Refusal(After(es), p, q).None? <==> Opens(es, p, q)
  {
    if es != [] {
      var before, e := es[..|es| - 1], es[|es| - 1];
      AdmittedExactlyWhen(before, p, q);
      OpensStep(before, e, p, q);
      assert es == before + [e];
    }
  }

  // ---------- The canonical order ----------

  /** Byte-wise order on ids, as Rust compares strings. */
  predicate BytesLess(a: bytes, b: bytes) {
    if b == [] then false
    else if a == [] then true
    else if a[0] != b[0] then a[0] < b[0]
    else BytesLess(a[1..], b[1..])
  }

  /** The order is decided by the first byte in which the two differ, or by the shorter one being a prefix. */
  lemma {:induction false} BytesLessExactlyWhen(a: bytes, b: bytes)
    ensures BytesLess(a, b) <==>
            exists k: nat :: k <= |a| && k < |b| && a[..k] == b[..k] && (k == |a| || a[k] < b[k])
    decreases |a|
  {
    if a != [] && b != [] {
      BytesLessExactlyWhen(a[1..], b[1..]);
      FirstDifference(a, b);
    } else if a == [] && b != [] {
      assert a[..0] == b[..0];
    }
  }

  lemma FirstDifference(a: bytes, b: bytes)
    requires a != [] && b != []
    ensures (exists k: nat :: k <= |a| && k < |b| && a[..k] == b[..k] && (k == |a| || a[k] < b[k])) <==>
            a[0] < b[0] || (a[0] == b[0] && exists k: nat :: k <= |a[1..]| && k < |b[1..]| && a[1..][..k] == b[1..][..k]
                                                          && (k == |a[1..]| || a[1..][k] < b[1..][k]))
  {
    if k: nat :| k <= |a| && k < |b| && a[..k] == b[..k] && (k == |a| || a[k] < b[k]) {
      if k > 0 {
        assert a[..k][0] == b[..k][0];
        assert a[1..][..k - 1] == a[..k][1..] == b[..k][1..] == b[1..][..k - 1];
      }
    }
    if a[0] < b[0] {
      assert a[..0] == b[..0];
    } else if a[0] == b[0] {
      if k: nat :| k <= |a[1..]| && k < |b[1..]| && a[1..][..k] == b[1..][..k]
                   && (k == |a[1..]| || a[1..][k] < b[1..][k]) {
        assert a[..k + 1] == [a[0]] + a[1..][..k] == [b[0]] + b[1..][..k] == b[..k + 1];
      }
    }
  }

  datatype Ranked = Ranked(id: bytes, period: u64, sequence: u64)

  predicate XtLess(a: Ranked, b: Ranked) {
    if a.period != b.period then a.period < b.period
    else if a.sequence != b.sequence then a.sequence < b.sequence
    else BytesLess(a.id, b.id)
  }

  lemma {:induction false} BytesLessTotal(a: bytes, b: bytes, c: bytes)
    ensures !BytesLess(a, a)
    ensures BytesLess(a, b) || BytesLess(b, a) || a == b
    ensures BytesLess(a, b) && BytesLess(b, c) ==> BytesLess(a, c)
    decreases |a| + |b| + |c|
  {
    if a != [] && b != [] {
      BytesLessTotal(a[1..], b[1..], if c == [] then [] else c[1..]);
      assert a == [a[0]] + a[1..] && b == [b[0]] + b[1..];
    } else if a != [] {
      BytesLessTotal(a[1..], [], []);
    }
  }

  /** A strict total order on (period, sequence, id). */
  lemma XtLessIsStrictTotal(a: Ranked, b: Ranked, c: Ranked)
    ensures !XtLess(a, a)
    ensures XtLess(a, b) || XtLess(b, a) || a == b
    ensures XtLess(a, b) && XtLess(b, c) ==> XtLess(a, c)
  {
    BytesLessTotal(a.id, b.id, c.id);
  }

  /** Instances are ordered by their admission, whatever their ids. */
  lemma AdmissionIsXtOrder(es: seq<Event>, i: nat, j: nat, a: bytes, b: bytes)
    requires Increasing(Announced(es)) && i < |Accepted(es)| && j < |Accepted(es)| && i != j
    ensures var x, y := Accepted(es)[i], Accepted(es)[j]; XtLess(Ranked(a, x.0, x.1), Ranked(b, y.0, y.1)) <==> i < j
  {
    WatermarkBoundsAccepted(es);
  }
}
