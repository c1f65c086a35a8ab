/** Which state the transactions of a slice are really simulated on, over the log of a pipeline run. */
module Slices {
  import opened Prelude
  import opened Matching
  import opened Overrides
  import opened TraceDiff
  import opened MailboxStorage
  import opened Pipeline

  /** The mailbox contract of the local chain, as the simulator is configured with it. */
  datatype Contract = Contract(hash: Keccak, chain: u64, mailbox: Address)

  function SlotsFor(c: Contract, deps: seq<Dependency>): Slots {
    Build(c.hash, c.chain, deps)
  }

  /** The overrides of a simulator call: the carried ones, merged with the patch for the fulfilled dependencies. */
  function CallOverrides(c: Contract, a: Attempt): StateOverride {
    if SlotsFor(c, a.fulfilled) == map[] then a.overrides
    else Merge(a.overrides, MailboxPatch(c.mailbox, SlotsFor(c, a.fulfilled)))
  }

  ghost function RunsOn(c: Contract, w: World, a: Attempt): World {
    Apply(CallOverrides(c, a), w)
  }

  lemma EmptyPatch(mailbox: Address, s: World)
    requires NormalWorld(s)
    ensures Apply(MailboxPatch(mailbox, map[]), s) == s
  {
    var r := Apply(MailboxPatch(mailbox, map[]), s);
    forall addr | addr in s ensures r[addr] == s[addr] {
      if addr == mailbox {
        assert s[addr].storage + map[] == s[addr].storage;
        assert DropZeros(s[addr].storage) == s[addr].storage;
      }
    }
  }

  /** A call runs on the carried state, patched. */
  lemma RunsOnPatched(c: Contract, w: World, a: Attempt)
    requires WellFormed(a.overrides) && NormalWorld(w)
    ensures RunsOn(c, w, a) == Apply(MailboxPatch(c.mailbox, SlotsFor(c, a.fulfilled)), Apply(a.overrides, w))
  {
    ApplyKeepsNormal(a.overrides, w);
    EmptyPatch(c.mailbox, Apply(a.overrides, w));
    MergeIsComposition(a.overrides, MailboxPatch(c.mailbox, SlotsFor(c, a.fulfilled)), w);
  }

  // ---------- What a log carries ----------

  function TracedOverrides(d: Diff): Option<StateOverride> {
    if FromDiff(d) == map[] then None else Some(FromDiff(d))
  }

  /** Every success was recorded and answered with the overrides of its transaction's trace. */
  ghost predicate Traced(log: seq<Attempt>, ds: seq<Diff>) {
    forall k :: 0 <= k < |log| && Succeeded(log[k]) ==>
      && log[k].recorded && log[k].index < |ds|
      && log[k].result.value.overrides == TracedOverrides(ds[log[k].index])
  }

  lemma MergeNothing(base: StateOverride)
    ensures Merge(base, map[]) == base
  {
  }

  lemma TracedAttempt(before: StateOverride, a: Attempt, d: Diff)
    requires Succeeded(a) && a.recorded && a.result.value.overrides == TracedOverrides(d)
    ensures AfterAttempt(before, a) == Merge(before, FromDiff(d))
  {
    MergeNothing(before);
  }

  lemma PrefixHolds(base: StateOverride, log: seq<Attempt>, ds: seq<Diff>, n: nat)
    requires Chained(base, log) && Traced(log, ds) && n <= |log|
    ensures Chained(base, log[..n]) && Traced(log[..n], ds)
  {
    assert forall k :: 0 <= k < n ==> log[..n][..k] == log[..k];
  }

  lemma LastTraced(base: StateOverride, log: seq<Attempt>, ds: seq<Diff>)
    requires log != [] && Chained(base, log) && Traced(log, ds)
    ensures var a := log[|log| - 1];
            Succeeded(a) ==> && a.recorded && a.index == Successes(log[..|log| - 1]) < |ds|
                             && a.result.value.overrides == TracedOverrides(ds[a.index])
  {
  }

  lemma CarriedOneMore(base: StateOverride, ds: seq<Diff>, j: nat, a: Attempt)
    requires j <= |ds|
    requires Succeeded(a) ==> a.recorded && j < |ds| && a.result.value.overrides == TracedOverrides(ds[j])
    ensures Carried(base, ds, if Succeeded(a) then j + 1 else j) == AfterAttempt(Carried(base, ds, j), a)
  {
    if Succeeded(a) { TracedAttempt(Carried(base, ds, j), a, ds[j]); }
  }

  lemma {:induction false} CarryIsCarried(base: StateOverride, log: seq<Attempt>, ds: seq<Diff>)
    requires Chained(base, log) && Traced(log, ds)
    ensures Successes(log) <= |ds| && Carry(base, log) == Carried(base, ds, Successes(log))
  {
    if log != [] {
      var n := |log| - 1;
      PrefixHolds(base, log, ds, n);
      CarryIsCarried(base, log[..n], ds);
      CarryStep(base, log, ds, Successes(log[..n]), Carry(base, log[..n]));
    }
  }

  lemma CarryStep(base: StateOverride, log: seq<Attempt>, ds: seq<Diff>, j: nat, before: StateOverride)
    requires log != [] && Chained(base, log) && Traced(log, ds)
    requires j == Successes(log[..|log| - 1]) <= |ds| && before == Carry(base, log[..|log| - 1]) == Carried(base, ds, j)
    ensures Successes(log) <= |ds| && Carry(base, log) == Carried(base, ds, Successes(log))
  {
    var a := log[|log| - 1];
    LastTraced(base, log, ds);
    CarriedOneMore(base, ds, j, a);
    assert Successes(log) == if Succeeded(a) then j + 1 else j;
    assert Carry(base, log) == AfterAttempt(before, a);
  }

  lemma {:induction false} CarriedWellFormed(base: StateOverride, ds: seq<Diff>, k: nat, w: World)
    requires WellFormed(base) && k <= |ds|
    ensures WellFormed(Carried(base, ds, k))
  {
    if k > 0 {
      CarriedWellFormed(base, ds, k - 1, w);
      FromDiffWellFormed(ds[k - 1]);
      MergeIsComposition(Carried(base, ds, k - 1), FromDiff(ds[k - 1]), w);
    }
  }

  lemma AttemptWellFormed(base: StateOverride, log: seq<Attempt>, ds: seq<Diff>, k: nat, w: World)
    requires WellFormed(base) && Chained(base, log) && Traced(log, ds) && k < |log|
    ensures WellFormed(log[k].overrides)
  {
    PrefixHolds(base, log, ds, k);
    CarryIsCarried(base, log[..k], ds);
    CarriedWellFormed(base, ds, Successes(log[..k]), w);
  }

  // ---------- Without dependencies ----------

  lemma {:induction false} FulfilledGrows(log: seq<Attempt>, k: nat, n: nat)
    requires Growing(log) && k <= n < |log|
    ensures log[k].fulfilled <= log[n].fulfilled
    decreases n
  {
    if k < n {
      FulfilledGrows(log, k, n - 1);
      assert Grows(log[n - 1], log[n].fulfilled);
    }
  }

  /**
    In every run whose successes were recorded and traced, an attempt that is given
    no fulfilled dependency simulates transaction `k` on exactly the state left by
    transactions `0` to `k - 1` of the slice.
   */
  lemma SimulatedOnPredecessorState(
      c: Contract, base: StateOverride, w: World, log: seq<Attempt>, ds: seq<Diff>, ws: seq<World>, n: nat)
    requires WellFormed(base) && Chained(base, log) && Traced(log, ds) && n < |log| && log[n].fulfilled == []
    requires |ws| == |ds| + 1 && ws[0] == Apply(base, w)
    requires forall i :: 0 <= i < |ds| ==> Traces(ds[i], ws[i], ws[i + 1]) && !Hidden(ds[i], ws[i], ws[i + 1])
    ensures log[n].index <= |ds| && RunsOn(c, w, log[n]) == ws[log[n].index]
  {
    PrefixHolds(base, log, ds, n);
    CarryIsCarried(base, log[..n], ds);
    ChainSeesPredecessors(base, w, ds, ws, Successes(log[..n]));
  }

  // ---------- With dependencies ----------

  lemma {:induction false} FailuresCarryNothing(base: StateOverride, log: seq<Attempt>, k: nat, m: nat)
    requires k <= m <= |log| && forall t :: k <= t < m ==> !Succeeded(log[t])
    ensures Carry(base, log[..m]) == Carry(base, log[..k]) && Successes(log[..m]) == Successes(log[..k])
    decreases m
  {
    if k < m {
      FailuresCarryNothing(base, log, k, m - 1);
      assert log[..m][..m - 1] == log[..m - 1];
    }
  }

  /** After a success, and until the next one, the carried overrides are its own merged with its trace. */
  lemma CarriedFrom(base: StateOverride, log: seq<Attempt>, ds: seq<Diff>, k: nat, m: nat)
    requires Chained(base, log) && Traced(log, ds) && k < m < |log| && Succeeded(log[k])
    requires forall t :: k < t < m ==> !Succeeded(log[t])
    ensures log[k].index < |ds| && log[m].index == log[k].index + 1
    ensures log[m].overrides == Merge(log[k].overrides, FromDiff(ds[log[k].index]))
  {
    FailuresCarryNothing(base, log, k + 1, m);
    assert log[..k + 1][..k] == log[..k];
    TracedAttempt(log[k].overrides, log[k], ds[log[k].index]);
  }

  lemma {:induction false} SlotsGrow(c: Contract, deps: seq<Dependency>, more: seq<Dependency>)
    requires deps <= more
    ensures SlotsFor(c, deps).Keys <= SlotsFor(c, more).Keys
    decreases |more|
  {
    if deps == more {
    } else {
      SlotsGrow(c, deps, more[..|more| - 1]);
    }
  }

  /**
    Over the log of any run: every attempt at the transaction after a success,
    first or repeated, is simulated on the state `left` by that success exactly
    when its trace hides no change and that state already holds what the attempt's
    fulfilled dependencies write.
   */
  lemma NextSeesPredecessorExactlyWhen(
      c: Contract, base: StateOverride, w: World, log: seq<Attempt>, ds: seq<Diff>, k: nat, m: nat, left: World)
    requires WellFormed(base) && NormalWorld(w) && c.mailbox in w
    requires Chained(base, log) && Growing(log) && Traced(log, ds)
    requires k < m < |log| && Succeeded(log[k]) && forall t :: k < t < m ==> !Succeeded(log[t])
    requires Traces(ds[log[k].index], RunsOn(c, w, log[k]), left)
    ensures log[m].index == log[k].index + 1
    ensures RunsOn(c, w, log[m]) == left <==>
            && !Hidden(ds[log[k].index], RunsOn(c, w, log[k]), left)
            && Holds(left[c.mailbox], SlotsFor(c, log[m].fulfilled))
  {
    CarriedFrom(base, log, ds, k, m);
    AttemptWellFormed(base, log, ds, k, w);
    AttemptWellFormed(base, log, ds, m, w);
    RunsOnPatched(c, w, log[k]);
    RunsOnPatched(c, w, log[m]);
    FulfilledGrows(log, k, m);
    SlotsGrow(c, log[k].fulfilled, log[m].fulfilled);
    PatchReappliedExactlyWhen(c.mailbox, SlotsFor(c, log[k].fulfilled), SlotsFor(c, log[m].fulfilled),
                              log[k].overrides, ds[log[k].index], w, left);
  }

  // ---------- A consumed message comes back ----------

  /** The trace of a transaction that clears everything the mailbox holds and does nothing else. */
  function ConsumingTrace(mailbox: Address, held: Slots): Diff {
    Diff(map[mailbox := AccountState(None, None, None, held)], map[mailbox := AccountState(None, None, None, map[])])
  }

  type Answer = Result<SimulationResult, string>

  /** A transaction simulated with one fulfilled dependency, and a first attempt at the next one. */
  function TwoAttempts(d: Diff, dep: Dependency, first: SimulationResult, answer: Answer): seq<Attempt> {
    [Attempt(0, map[], [dep], Ok(first.(success := true, overrides := TracedOverrides(d))), true)]
    + [Attempt(1, FromDiff(d), [dep], answer, false)]
  }

  lemma OneAttempt(base: StateOverride, a: Attempt)
    requires a.index == 0 && a.overrides == base
    ensures Successes([a]) == (if Succeeded(a) then 1 else 0) && Carry(base, [a]) == AfterAttempt(base, a)
    ensures Chained(base, [a])
  {
    var log := [a];
    assert log[..|log| - 1] == [] && log[..0] == [] && log[|log| - 1] == a;
  }

  lemma TwoAttemptsLogged(d: Diff, dep: Dependency, first: SimulationResult, answer: Answer)
    requires answer.Ok? ==> !answer.value.success
    ensures var log := TwoAttempts(d, dep, first, answer);
            Chained(map[], log) && Growing(log) && Traced(log, [d])
  {
    var log := TwoAttempts(d, dep, first, answer);
    var one := [log[0]];
    OneAttempt(map[], log[0]);
    TracedAttempt(map[], log[0], d);
    MergeOntoNothing(FromDiff(d));
    ChainedAppend(map[], one, log[1]);
    assert log == one + [log[1]];
  }

  lemma ConsumptionTraced(mailbox: Address, slots: Slots, w: World)
    requires w == imap[mailbox := EMPTY_ACCOUNT]
    ensures var d := ConsumingTrace(mailbox, DropZeros(slots)); var patched := Apply(MailboxPatch(mailbox, slots), w);
            Traces(d, patched, w) && !Hidden(d, patched, w)
  {
    var a := ApplyAccount(StoragePatch(slots), EMPTY_ACCOUNT);
    assert map[] + slots == slots;
    assert a == Account(0, 0, [], DropZeros(slots));
    assert OldSlots(a, EMPTY_ACCOUNT) == DropZeros(slots);
    assert NewSlots(a, EMPTY_ACCOUNT) == map[];
  }

  lemma ClearingNothing(mailbox: Address, held: Slots, w: World)
    requires w == imap[mailbox := EMPTY_ACCOUNT]
    ensures var o := FromDiff(ConsumingTrace(mailbox, held)); Apply(o, w) == w && WellFormed(o)
  {
    var d := ConsumingTrace(mailbox, held);
    FromDiffWellFormed(d);
    var cleared := Cleared(held.Keys, map[]);
    assert DropZeros(map[] + cleared) == map[];
    assert ApplyAt(FromDiff(d), mailbox, EMPTY_ACCOUNT) == EMPTY_ACCOUNT;
  }

  lemma CreatedIsWritten(c: Contract, dep: Dependency)
    requires Applies(c.chain, dep)
    ensures var slots := SlotsFor(c, [dep]); var slot := CreatedSlot(c.hash, c.chain, dep);
            slot in slots && slots[slot] == ONE && ONE != ZERO
  {
    assert [dep][..0] == [];
    EncodeThenDecode(1, 32);
    EncodeThenDecode(0, 32);
    PowersGrow(32);
  }

  lemma EmptyIsNormal(mailbox: Address)
    ensures NormalWorld(imap[mailbox := EMPTY_ACCOUNT])
  {
  }

  lemma FirstRun(c: Contract, dep: Dependency, a: Attempt, w: World)
    requires w == imap[c.mailbox := EMPTY_ACCOUNT] && a.overrides == map[] && a.fulfilled == [dep]
    ensures RunsOn(c, w, a) == Apply(MailboxPatch(c.mailbox, SlotsFor(c, [dep])), w)
  {
    EmptyIsNormal(c.mailbox);
    RunsOnPatched(c, w, a);
    assert Apply(map[], w) == w;
  }

  lemma SecondRun(c: Contract, dep: Dependency, held: Slots, a: Attempt, w: World)
    requires w == imap[c.mailbox := EMPTY_ACCOUNT]
    requires a.overrides == FromDiff(ConsumingTrace(c.mailbox, held)) && a.fulfilled == [dep]
    ensures RunsOn(c, w, a) == Apply(MailboxPatch(c.mailbox, SlotsFor(c, [dep])), w)
  {
    EmptyIsNormal(c.mailbox);
    ClearingNothing(c.mailbox, held, w);
    RunsOnPatched(c, w, a);
  }

  lemma NothingHeld(c: Contract, dep: Dependency)
    requires Applies(c.chain, dep)
    ensures !Holds(EMPTY_ACCOUNT, SlotsFor(c, [dep]))
  {
    CreatedIsWritten(c, dep);
  }

  /**
    A transaction that consumes its delivered message clears the inbox slot, the
    created slot and any chunks. The next transaction is not simulated on what it
    left, but on the state it started from, with the message there again.
   */
  lemma ConsumedMessageComesBack(c: Contract, dep: Dependency, first: SimulationResult, answer: Answer, w: World)
    requires Applies(c.chain, dep) && (answer.Ok? ==> !answer.value.success) && w == imap[c.mailbox := EMPTY_ACCOUNT]
    ensures var d := ConsumingTrace(c.mailbox, DropZeros(SlotsFor(c, [dep])));
            var log := TwoAttempts(d, dep, first, answer);
            && Chained(map[], log) && Growing(log) && Traced(log, [d])
            && Traces(d, RunsOn(c, w, log[0]), w) && !Hidden(d, RunsOn(c, w, log[0]), w)
            && RunsOn(c, w, log[1]) != w && RunsOn(c, w, log[1]) == RunsOn(c, w, log[0])
  {
    var slots := SlotsFor(c, [dep]);
    var d := ConsumingTrace(c.mailbox, DropZeros(slots));
    var log := TwoAttempts(d, dep, first, answer);
    TwoAttemptsLogged(d, dep, first, answer);
    FirstRun(c, dep, log[0], w);
    SecondRun(c, dep, DropZeros(slots), log[1], w);
    ConsumptionTraced(c.mailbox, slots, w);
    NothingHeld(c, dep);
    EmptyIsNormal(c.mailbox);
    NextSeesPredecessorExactlyWhen(c, map[], w, log, [d], 0, 1, w);
  }
}
