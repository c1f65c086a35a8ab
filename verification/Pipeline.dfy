/**
  The simulation pipeline of one XT: simulate each local transaction, record what
  it needs, wait for mailbox messages, retry, and vote.

  The simulator, the delivery of outbound messages and everything other handlers
  do between two steps are inputs that may differ at every step.
 */
module Pipeline {
  import opened Prelude
  import opened Matching
  import opened Fulfilment
  import opened Xt
  import opened Overrides
  import TraceWalk

  type SimulationResult = TraceWalk.SimulationResult

  /** The simulator's answer to its `n`-th call. */
  type Simulator = (nat, Tx, StateOverride, seq<Dependency>) -> Result<SimulationResult, string>

  /** What other handlers do to the XT while the pipeline waits for a lock, a call or a wake-up. */
  datatype Happening = Happening(arrived: seq<Message>, removed: bool, deadline: bool)

  /** The XT, gone once removed, and what is still going to happen to it. */
  datatype Place = Place(xt: Option<PendingXt>, events: seq<Happening>)

  function Observe(xt: Option<PendingXt>, h: Happening): Option<PendingXt> {
    if xt.None? || h.removed then None
    else Some(xt.value.(box := xt.value.box.(pending := xt.value.box.pending + h.arrived)))
  }

  function Tick(s: Place): Place {
    if s.events == [] then s else Place(Observe(s.xt, s.events[0]), s.events[1..])
  }

  // ---------- Messages that can still be used ----------

  function Arrivals(events: seq<Happening>): multiset<Message> {
    if events == [] then multiset{} else multiset(events[0].arrived) + Arrivals(events[1..])
  }

  /** Messages waiting for the XT or yet to arrive. */
  function Bag(s: Place): multiset<Message> {
    if s.xt.None? then multiset{} else multiset(s.xt.value.box.pending) + Arrivals(s.events)
  }

  /** From `s` to `s'` the messages `used` were taken; only a removal of the XT loses any. */
  ghost predicate Accounts(s: Place, s': Place, used: seq<Message>) {
    && Bag(s') + multiset(used) <= Bag(s)
    && (s'.xt.Some? ==> s.xt.Some? && Bag(s') + multiset(used) == Bag(s))
  }

  lemma AccountsAdd(s: Place, s1: Place, s2: Place, used: seq<Message>, more: seq<Message>)
    requires Accounts(s, s1, used) && Accounts(s1, s2, more)
    ensures Accounts(s, s2, used + more)
  {
    assert multiset(used + more) == multiset(used) + multiset(more);
  }

  /** What happens between two steps of the pipeline: books and fulfilled list stay, and no message is used. */
  ghost predicate Passes(s: Place, s': Place) {
    Accounts(s, s', []) && (s'.xt.Some? ==> s.xt.Some? && SameBooks(s.xt.value, s'.xt.value))
  }

  /** Nothing was put on the wire in between, and no lock was given up. */
  ghost predicate SameWire(s: Place, s': Place) {
    s'.xt.Some? ==>
      && s.xt.Some? && s'.xt.value.rawId == s.xt.value.rawId && s'.xt.value.sentKeys == s.xt.value.sentKeys
      && s.xt.value.locked <= s'.xt.value.locked
  }

  lemma TickPasses(s: Place)
    ensures Passes(s, Tick(s)) && SameWire(s, Tick(s))
  {
    if s.events != [] && s.xt.Some? {
      var p, h := s.xt.value.box.pending, s.events[0];
      assert multiset(p + h.arrived) == multiset(p) + multiset(h.arrived);
    }
  }

  // ---------- Waiting ----------

  /** The books are kept and every dependency of the pass has been recorded. */
  ghost predicate Ready(xt: PendingXt, deps: seq<Dependency>) {
    Bookkept(xt) && KeySet(deps) <= xt.depKeys
  }

  lemma ReadyCarriesOver(x: PendingXt, y: PendingXt, deps: seq<Dependency>)
    requires Ready(x, deps) && SameBooks(x, y)
    ensures Ready(y, deps)
  {
  }

  /** What a wait may change: `n` entries are appended to the fulfilled list. */
  ghost predicate Waited(s: Place, s': Place, deps: seq<Dependency>, n: nat) {
    s'.xt.Some? ==>
      && s.xt.Some? && Ready(s'.xt.value, deps)
      && s.xt.value.box.fulfilled <= s'.xt.value.box.fulfilled
      && |s'.xt.value.box.fulfilled| == |s.xt.value.box.fulfilled| + n
  }

  lemma PassReady(xt: PendingXt, deps: seq<Dependency>)
    requires Ready(xt, deps)
    ensures Ready(FulfilXt(xt, deps), deps)
    ensures xt.box.fulfilled <= FulfilXt(xt, deps).box.fulfilled
    ensures |FulfilXt(xt, deps).box.fulfilled| == |xt.box.fulfilled| + |Consumed(xt.box, deps)|
  {
    PassEntries(xt.box, deps);
    FulfilmentKeepsBooks(xt, deps);
  }

  method FulfilPass(s: Place, deps: seq<Dependency>) returns (s': Place, used: seq<Message>)
    requires s.xt.Some? ==> Ready(s.xt.value, deps)
    ensures s'.events == s.events && s'.xt.Some? == s.xt.Some?
    ensures s.xt.Some? ==> s'.xt == Some(FulfilXt(s.xt.value, deps))
    ensures used == Consumable(s, deps)
    ensures Accounts(s, s', used) && Waited(s, s', deps, |used|) && SameWire(s, s')
  {
    if s.xt.None? { return s, []; }
    var xt := s.xt.value;
    var box, added := FulfilFromMailbox(xt.box, deps);
    used := Consumed(xt.box, deps);
    s' := s.(xt := Some(xt.(box := box)));
    PassConserves(xt.box, deps);
    PassReady(xt, deps);
  }

  /** What a wait keeps as long as no pass has used a message. */
  ghost predicate Idle(s: Place, s': Place, deps: seq<Dependency>) {
    Accounts(s, s', []) && Waited(s, s', deps, 0) && SameWire(s, s')
  }

  lemma NothingYet(s: Place, deps: seq<Dependency>)
    requires s.xt.Some? ==> Ready(s.xt.value, deps)
    ensures Idle(s, s, deps)
  {
  }

  /** What a pass at this place uses. */
  function Consumable(s: Place, deps: seq<Dependency>): seq<Message> {
    if s.xt.Some? then Consumed(s.xt.value.box, deps) else []
  }

  lemma TickWaits(s: Place, s': Place, deps: seq<Dependency>)
    requires Idle(s, s', deps)
    ensures Idle(s, Tick(s'), deps)
  {
    TickPasses(s');
    AccountsAdd(s, s', Tick(s'), [], []);
    if Tick(s').xt.Some? { ReadyCarriesOver(s'.xt.value, Tick(s').xt.value, deps); }
  }

  /** No waiting message matches a dependency that is not fulfilled yet. */
  ghost predicate NothingServes(xt: PendingXt, deps: seq<Dependency>) {
    forall d, m :: d in deps && KeyOf(d) !in xt.box.keys && m in xt.box.pending ==> !MatchesDependency(m, d)
  }

  /** The deadline, or the end of what happens, is reached and nothing waiting helps. */
  ghost predicate Stuck(s: Place, deps: seq<Dependency>) {
    && (s.events == [] || s.events[0].deadline)
    && (s.xt.Some? ==> NothingServes(s.xt.value, deps))
  }

  lemma {:induction false} IdlePass(b: Box, deps: seq<Dependency>)
    requires Consumed(b, deps) == []
    ensures Fulfil(b, deps) == b && forall d :: d in deps ==> !Serves(b, d)
    decreases |deps|
  {
    if deps != [] { IdlePass(b, deps[1..]); }
  }

  lemma IdleServesNothing(xt: PendingXt, deps: seq<Dependency>)
    requires Consumed(xt.box, deps) == []
    ensures FulfilXt(xt, deps) == xt && NothingServes(xt, deps)
  {
    IdlePass(xt.box, deps);
    forall d, m | d in deps && KeyOf(d) !in xt.box.keys && m in xt.box.pending ensures !MatchesDependency(m, d) {
      var j :| 0 <= j < |xt.box.pending| && xt.box.pending[j] == m;
      assert !Serves(xt.box, d);
    }
  }

  lemma PassAfterIdle(s: Place, s': Place, s1: Place, deps: seq<Dependency>, u: seq<Message>)
    requires Idle(s, s', deps) && u == Consumable(s', deps) && s1.xt.Some? == s'.xt.Some? && s1.events == s'.events
    requires s'.xt.Some? ==> s1.xt == Some(FulfilXt(s'.xt.value, deps))
    requires Accounts(s', s1, u) && Waited(s', s1, deps, |u|) && SameWire(s', s1)
    ensures Accounts(s, s1, u) && Waited(s, s1, deps, |u|) && SameWire(s, s1)
    ensures u == [] ==> s1 == s' && (s'.xt.Some? ==> NothingServes(s'.xt.value, deps))
  {
    AccountsAdd(s, s', s1, [], u);
    assert [] + u == u;
    if u == [] && s'.xt.Some? { IdleServesNothing(s'.xt.value, deps); }
  }

  /**
    Passes are repeated at every wake-up until one uses a message or the deadline is
    reached. A message that is there already is used at once.
   */
  method WaitForDependencies(s: Place, deps: seq<Dependency>) returns (ok: bool, s': Place, used: seq<Message>)
    requires s.xt.Some? ==> Ready(s.xt.value, deps)
    ensures ok <==> used != []
    ensures !ok ==> Stuck(s', deps)
    ensures Consumable(s, deps) != [] ==> used == Consumable(s, deps) && s'.events == s.events
    ensures Accounts(s, s', used) && Waited(s, s', deps, |used|) && SameWire(s, s')
  {
    s', used := s, [];
    NothingYet(s, deps);
    while true
      invariant used == [] && Idle(s, s', deps) && (s' == s || Consumable(s, deps) == [])
      decreases |s'.events|
    {
      var s1, u := FulfilPass(s', deps);
      PassAfterIdle(s, s', s1, deps, u);
      if u != [] { return true, s1, u; }
      if s'.events == [] || s'.events[0].deadline { return false, s', []; }
      TickWaits(s, s', deps);
      s' := Tick(s');
    }
  }

  // ---------- Recording ----------

  method RecordDeps(xt: PendingXt, deps: seq<Dependency>) returns (r: PendingXt)
    ensures r == RecordDependencies(xt, deps)
  {
    r := xt;
    for i := 0 to |deps|
      invariant RecordDependencies(r, deps[i..]) == RecordDependencies(xt, deps)
    {
      assert deps[i..][0] == deps[i] && deps[i..][1..] == deps[i + 1..];
      var key := KeyOf(deps[i]);
      if key !in r.depKeys {
        r := r.(depKeys := r.depKeys + {key}, dependencies := r.dependencies + [deps[i]]);
      }
    }
    assert deps[|deps|..] == [];
  }

  method RecordMessages(xt: PendingXt, msgs: seq<Outbound>) returns (r: PendingXt)
    ensures r == RecordOutbound(xt, msgs)
  {
    r := xt;
    for i := 0 to |msgs|
      invariant RecordOutbound(r, msgs[i..]) == RecordOutbound(xt, msgs)
    {
      assert msgs[i..][0] == msgs[i] && msgs[i..][1..] == msgs[i + 1..];
      if !ContainsMessage(r.outbound, msgs[i]) { r := r.(outbound := r.outbound + [msgs[i]]); }
    }
    assert msgs[|msgs|..] == [];
  }

  lemma RecordedReady(xt: PendingXt, deps: seq<Dependency>, outbound: seq<Outbound>)
    requires Bookkept(xt)
    ensures var x := RecordOutbound(RecordDependencies(xt, deps), outbound);
            && Ready(x, deps) && x.box == xt.box && x.rawId == xt.rawId && x.sentKeys == xt.sentKeys
            && x.locked == xt.locked
  {
    var x1 := RecordDependencies(xt, deps);
    RecordingKeepsBooks(xt, deps);
    RecordingTouchesNothingElse(xt, deps);
    OutboundTouchesNothingElse(x1, outbound);
    BooksCarryOver(x1, RecordOutbound(x1, outbound));
  }

  /** Only a successful result of an XT that is still pending is merged into the carried overrides. */
  method RecordSimulationState(s: Place, result: SimulationResult, carried: StateOverride)
    returns (s': Place, merged: StateOverride)
    requires s.xt.Some? ==> Bookkept(s.xt.value)
    ensures s'.events == s.events && s'.xt.Some? == s.xt.Some? && Bag(s') == Bag(s) && SameWire(s, s')
    ensures s.xt.Some? ==>
              s'.xt == Some(RecordOutbound(RecordDependencies(s.xt.value, result.dependencies), result.outbound))
    ensures s.xt.Some? ==> Ready(s'.xt.value, result.dependencies) && s'.xt.value.box == s.xt.value.box
    ensures merged == if s.xt.Some? && result.success && result.overrides.Some?
                      then Merge(carried, result.overrides.value) else carried
  {
    s', merged := s, carried;
    if s.xt.None? { return; }
    if result.success && result.overrides.Some? { merged := MergeOverrides(carried, result.overrides.value); }
    var x1 := RecordDeps(s.xt.value, result.dependencies);
    var x2 := RecordMessages(x1, result.outbound);
    RecordedReady(s.xt.value, result.dependencies, result.outbound);
    s' := s.(xt := Some(x2));
  }

  // ---------- Dispatch ----------

  function SentKeys(ms: seq<Message>): set<SentKey> {
    set m | m in ms :: SentKeyOf(m)
  }

  function Wired(raw: bytes, msgs: seq<Outbound>): seq<Message> {
    seq(|msgs|, i requires 0 <= i < |msgs| => ToWire(raw, msgs[i]))
  }

  ghost predicate DistinctSentKeys(ms: seq<Message>) {
    forall i, j :: 0 <= i < j < |ms| ==> SentKeyOf(ms[i]) != SentKeyOf(ms[j])
  }

  lemma SentKeysAppend(ms: seq<Message>, m: Message)
    ensures SentKeys(ms + [m]) == SentKeys(ms) + {SentKeyOf(m)}
    ensures DistinctSentKeys(ms) && SentKeyOf(m) !in SentKeys(ms) ==> DistinctSentKeys(ms + [m])
  {
    forall i | 0 <= i < |ms| ensures SentKeyOf(ms[i]) in SentKeys(ms) {
      assert ms[i] in ms;
    }
    assert forall e :: e in ms + [m] <==> e in ms || e == m;
  }

  /** The messages that go out: for each key not sent yet, the first that carries it. */
  function FirstPerKey(ms: seq<Message>, sent: set<SentKey>): seq<Message> {
    if ms == [] then []
    else
      var front, m := ms[..|ms| - 1], ms[|ms| - 1];
      if SentKeyOf(m) in sent + SentKeys(front) then FirstPerKey(front, sent) else FirstPerKey(front, sent) + [m]
  }

  lemma FirstPerKeyAppend(ms: seq<Message>, m: Message, sent: set<SentKey>)
    ensures FirstPerKey(ms + [m], sent)
         == if SentKeyOf(m) in sent + SentKeys(ms) then FirstPerKey(ms, sent) else FirstPerKey(ms, sent) + [m]
  {
    var l := ms + [m];
    assert l[..|l| - 1] == ms && l[|l| - 1] == m;
  }

  /** Every key not sent before is sent, and once. */
  lemma {:induction false} FirstPerKeyCovers(ms: seq<Message>, sent: set<SentKey>)
    ensures SentKeys(FirstPerKey(ms, sent)) == SentKeys(ms) - sent && DistinctSentKeys(FirstPerKey(ms, sent))
  {
    if ms != [] {
      var front, m := ms[..|ms| - 1], ms[|ms| - 1];
      assert ms == front + [m];
      FirstPerKeyCovers(front, sent);
      SentKeysAppend(front, m);
      SentKeysAppend(FirstPerKey(front, sent), m);
    }
  }

  ghost predicate IsFirst(ms: seq<Message>, i: nat, m: Message) {
    i < |ms| && ms[i] == m && SentKeyOf(m) !in SentKeys(ms[..i])
  }

  /** What is sent for a key is the first message that carries it. */
  lemma {:induction false} FirstPerKeyIsFirst(ms: seq<Message>, sent: set<SentKey>, m: Message) returns (i: nat)
    requires m in FirstPerKey(ms, sent)
    ensures IsFirst(ms, i, m)
  {
    var front := ms[..|ms| - 1];
    if m in FirstPerKey(front, sent) {
      i := FirstPerKeyIsFirst(front, sent, m);
      assert front[..i] == ms[..i];
    } else {
      i := |ms| - 1;
    }
  }

  /** The message spells out write `o` of the XT with raw id `raw`, payload included. */
  ghost predicate Carries(m: Message, raw: bytes, o: Outbound) {
    && m.instanceId == raw && m.sourceChain == o.sourceChain && m.destChain == o.destChain
    && m.sender == o.sender && m.receiver == o.receiver && m.labelBytes == o.labelBytes && m.payload == o.data
    && |m.sessionId| == 32 && FromBigEndian(m.sessionId) == o.sessionId
  }

  lemma {:induction false} FirstPerKeyFrom(ms: seq<Message>, sent: set<SentKey>, m: Message)
    requires m in FirstPerKey(ms, sent)
    ensures m in ms
  {
    var front := ms[..|ms| - 1];
    if m in FirstPerKey(front, sent) { FirstPerKeyFrom(front, sent, m); }
  }

  /** What goes out for an XT spells out its writes, and each write has its message among the candidates. */
  lemma SentCarriesWrites(raw: bytes, msgs: seq<Outbound>, sent: set<SentKey>)
    ensures |Wired(raw, msgs)| == |msgs| && forall i :: 0 <= i < |msgs| ==> Carries(Wired(raw, msgs)[i], raw, msgs[i])
    ensures forall m :: m in FirstPerKey(Wired(raw, msgs), sent) ==> exists o :: o in msgs && Carries(m, raw, o)
  {
    forall i | 0 <= i < |msgs| ensures Carries(Wired(raw, msgs)[i], raw, msgs[i]) {
      SessionIdRoundTrip(msgs[i].sessionId, []);
    }
    forall m | m in FirstPerKey(Wired(raw, msgs), sent) ensures exists o :: o in msgs && Carries(m, raw, o) {
      FirstPerKeyFrom(Wired(raw, msgs), sent, m);
      var i :| 0 <= i < |msgs| && Wired(raw, msgs)[i] == m;
      assert msgs[i] in msgs;
    }
  }

  /** Each key of the XT goes out at most once, with the first message that carries it. */
  method DispatchOutbound(xt: PendingXt, msgs: seq<Outbound>) returns (xt': PendingXt, sent: seq<Message>)
    ensures xt' == xt.(sentKeys := xt.sentKeys + SentKeys(Wired(xt.rawId, msgs)))
    ensures sent == FirstPerKey(Wired(xt.rawId, msgs), xt.sentKeys)
  {
    var keys;
    keys, sent := CollectUnsent(Wired(xt.rawId, msgs), xt.sentKeys);
    xt' := xt.(sentKeys := keys);
  }

  lemma OneMoreUnsent(ms: seq<Message>, i: nat, known: set<SentKey>)
    requires i < |ms|
    ensures SentKeys(ms[..i + 1]) == SentKeys(ms[..i]) + {SentKeyOf(ms[i])}
    ensures FirstPerKey(ms[..i + 1], known)
         == if SentKeyOf(ms[i]) in known + SentKeys(ms[..i]) then FirstPerKey(ms[..i], known)
            else FirstPerKey(ms[..i], known) + [ms[i]]
  {
    assert ms[..i + 1] == ms[..i] + [ms[i]];
    SentKeysAppend(ms[..i], ms[i]);
    FirstPerKeyAppend(ms[..i], ms[i], known);
  }

  method CollectUnsent(ms: seq<Message>, known: set<SentKey>) returns (keys: set<SentKey>, sent: seq<Message>)
    ensures keys == known + SentKeys(ms) && sent == FirstPerKey(ms, known)
  {
    keys, sent := known, [];
    for i := 0 to |ms|
      invariant keys == known + SentKeys(ms[..i])
      invariant sent == FirstPerKey(ms[..i], known)
    {
      OneMoreUnsent(ms, i, known);
      if SentKeyOf(ms[i]) !in keys {
        keys, sent := keys + {SentKeyOf(ms[i])}, sent + [ms[i]];
      }
    }
    assert ms[..|ms|] == ms;
  }

  lemma KeysAfterDispatch(ms: seq<Message>, known: set<SentKey>)
    ensures known + SentKeys(ms) == known + SentKeys(FirstPerKey(ms, known))
  {
    FirstPerKeyCovers(ms, known);
  }

  /** Delivery fails exactly when a message had to be sent and was not delivered. */
  method Dispatch(s: Place, msgs: seq<Outbound>, delivered: bool) returns (s': Place, sent: seq<Message>, ok: bool)
    ensures Passes(s, s') && s'.xt.Some? == s.xt.Some?
    ensures sent == if s.xt.Some? then FirstPerKey(Wired(s.xt.value.rawId, msgs), s.xt.value.sentKeys) else []
    ensures s.xt.Some? ==>
              && s'.xt.value.rawId == s.xt.value.rawId && s'.xt.value.locked == s.xt.value.locked
              && s'.xt.value.sentKeys == s.xt.value.sentKeys + SentKeys(sent)
    ensures ok <==> sent == [] || delivered
  {
    s', sent, ok := s, [], true;
    if s.xt.None? { return; }
    KeysAfterDispatch(Wired(s.xt.value.rawId, msgs), s.xt.value.sentKeys);
    if msgs == [] { return; }
    var xt;
    xt, sent := DispatchOutbound(s.xt.value, msgs);
    s' := s.(xt := Some(xt));
    ok := sent == [] || delivered;
  }

  // ---------- Runs of attempts ----------

  /** One call of the simulator; `recorded` tells whether the XT was still pending when the answer came. */
  datatype Attempt = Attempt(
    index: nat, overrides: StateOverride, fulfilled: seq<Dependency>,
    result: Result<SimulationResult, string>, recorded: bool)

  predicate Succeeded(a: Attempt) {
    a.result.Ok? && a.result.value.success
  }

  function Successes(log: seq<Attempt>): nat {
    if log == [] then 0 else Successes(log[..|log| - 1]) + if Succeeded(log[|log| - 1]) then 1 else 0
  }

  function AfterAttempt(before: StateOverride, a: Attempt): StateOverride {
    if Succeeded(a) && a.recorded && a.result.value.overrides.Some? then Merge(before, a.result.value.overrides.value)
        else before
  }

  /** Overrides after a log: those of its recorded successes, merged in order. */
  function Carry(base: StateOverride, log: seq<Attempt>): StateOverride {
    if log == [] then base else AfterAttempt(Carry(base, log[..|log| - 1]), log[|log| - 1])
  }

  /** Every attempt is for the next transaction not yet simulated, on the overrides carried so far. */
  ghost predicate Chained(base: StateOverride, log: seq<Attempt>) {
    forall k :: 0 <= k < |log| ==> log[k].overrides == Carry(base, log[..k]) && log[k].index == Successes(log[..k])
  }

  /** The list of fulfilled dependencies an attempt is given, after one that was given `before`. */
  ghost predicate Grows(before: Attempt, fulfilled: seq<Dependency>) {
    && before.fulfilled <= fulfilled
    && (if Succeeded(before) then fulfilled == before.fulfilled else |before.fulfilled| < |fulfilled|)
  }

  /** After a success the list stays; a retry always knows more fulfilled dependencies. */
  ghost predicate Growing(log: seq<Attempt>) {
    forall k :: 0 < k < |log| ==> Grows(log[k - 1], log[k].fulfilled)
  }

  lemma CarryAppend(base: StateOverride, log: seq<Attempt>, a: Attempt)
    ensures Successes(log + [a]) == Successes(log) + if Succeeded(a) then 1 else 0
    ensures Carry(base, log + [a]) == AfterAttempt(Carry(base, log), a)
  {
    var l := log + [a];
    assert l[..|l| - 1] == log;
  }

  lemma ChainedAppend(base: StateOverride, log: seq<Attempt>, a: Attempt)
    requires Chained(base, log) && a.overrides == Carry(base, log) && a.index == Successes(log)
    ensures Chained(base, log + [a])
  {
    var l := log + [a];
    forall k | 0 <= k < |l| ensures l[k].overrides == Carry(base, l[..k]) && l[k].index == Successes(l[..k]) {
      assert l[..k] == log[..k];
      if k == |log| { assert log[..k] == log; }
    }
  }

  lemma GrowingAppend(log: seq<Attempt>, a: Attempt)
    requires Growing(log) && (log != [] ==> Grows(log[|log| - 1], a.fulfilled))
    ensures Growing(log + [a])
  {
    var l := log + [a];
    forall k | 0 < k < |l| ensures Grows(l[k - 1], l[k].fulfilled) {
      assert l[k - 1] == log[k - 1];
    }
  }

  /** `sends` lists for each attempt the messages put on the wire after its answer. */
  datatype Run = Run(
    place: Place, carried: StateOverride, fulfilled: seq<Dependency>, log: seq<Attempt>, used: seq<Message>,
    sends: seq<seq<Message>>)

  /** Messages are accounted for, and each used one has its entry in a sound record. */
  ghost predicate PlaceOk(start: Place, s: Place, used: seq<Message>) {
    && Accounts(start, s, used)
    && (s.xt.Some? ==> Bookkept(s.xt.value) && |s.xt.value.box.fulfilled| == |start.xt.value.box.fulfilled| + |used|)
  }

  function KeysSent(sends: seq<seq<Message>>): set<SentKey> {
    if sends == [] then {} else KeysSent(sends[..|sends| - 1]) + SentKeys(sends[|sends| - 1])
  }

  /** What answer `k` has to send: the first message of each key sent neither before the run nor earlier in it. */
  function Unsent(x: PendingXt, log: seq<Attempt>, sends: seq<seq<Message>>, k: nat): seq<Message>
    requires k < |log| && k <= |sends|
  {
    if Refused(log[k]).Some? then []
    else FirstPerKey(Wired(x.rawId, log[k].result.value.outbound), x.sentKeys + KeysSent(sends[..k]))
  }

  predicate SentAt(sent: seq<Message>, unsent: seq<Message>, gone: bool) {
    sent == unsent || (gone && sent == [])
  }

  /** Each answer put on the wire what it had to send, or nothing once the XT was gone. */
  ghost predicate Wire(x: PendingXt, log: seq<Attempt>, sends: seq<seq<Message>>, gone: bool) {
    |sends| <= |log| && forall k :: 0 <= k < |sends| ==> SentAt(sends[k], Unsent(x, log, sends, k), gone)
  }

  ghost predicate WireOk(start: Place, r: Run) {
    if start.xt.None? then r.sends == [] && r.place.xt.None?
    else
      && Wire(start.xt.value, r.log, r.sends, r.place.xt.None?)
      && (r.place.xt.Some? ==>
            && r.place.xt.value.rawId == start.xt.value.rawId
            && r.place.xt.value.sentKeys == start.xt.value.sentKeys + KeysSent(r.sends)
            && start.xt.value.locked <= r.place.xt.value.locked)
  }

  lemma {:induction false} SentBefore(sends: seq<seq<Message>>, i: nat, j: nat)
    requires i < j <= |sends|
    ensures SentKeys(sends[i]) <= KeysSent(sends[..j])
    decreases j
  {
    assert sends[..j][..j - 1] == sends[..j - 1];
    if i < j - 1 { SentBefore(sends, i, j - 1); }
  }

  /** Over a whole run, retries included, no key goes out twice, nor one that was sent before the run. */
  lemma KeysGoOutOnce(x: PendingXt, log: seq<Attempt>, sends: seq<seq<Message>>, gone: bool, i: nat, j: nat)
    requires Wire(x, log, sends, gone) && i <= j < |sends|
    ensures DistinctSentKeys(sends[j]) && SentKeys(sends[j]) !! x.sentKeys
    ensures i < j ==> SentKeys(sends[i]) !! SentKeys(sends[j])
  {
    assert SentAt(sends[j], Unsent(x, log, sends, j), gone);
    if Refused(log[j]).None? {
      FirstPerKeyCovers(Wired(x.rawId, log[j].result.value.outbound), x.sentKeys + KeysSent(sends[..j]));
    }
    if i < j { SentBefore(sends, i, j); }
  }

  /** While the XT is there, every key an answer that is not refused writes is out once that answer is dealt with. */
  lemma EveryKeyGoesOut(x: PendingXt, log: seq<Attempt>, sends: seq<seq<Message>>, j: nat)
    requires Wire(x, log, sends, false) && j < |sends| && Refused(log[j]).None?
    ensures SentKeys(Wired(x.rawId, log[j].result.value.outbound)) <= x.sentKeys + KeysSent(sends[..j + 1])
  {
    assert SentAt(sends[j], Unsent(x, log, sends, j), false);
    FirstPerKeyCovers(Wired(x.rawId, log[j].result.value.outbound), x.sentKeys + KeysSent(sends[..j]));
    assert sends[..j + 1][..j] == sends[..j];
  }

  /** The simulator was asked about the transaction of each attempt, with what the attempt was given. */
  ghost predicate Asked(log: seq<Attempt>, txs: seq<Tx>, sim: Simulator) {
    forall k :: 0 <= k < |log| ==>
      log[k].index < |txs| && log[k].result == sim(k, txs[log[k].index], log[k].overrides, log[k].fulfilled)
  }

  /** Everything the first `n` answers put on the wire was delivered. */
  ghost predicate AllDelivered(sends: seq<seq<Message>>, delivered: nat -> bool, n: nat) {
    forall k: nat :: k < n && k < |sends| && sends[k] != [] ==> delivered(k)
  }

  /** The first attempt is given what was fulfilled before the run. */
  ghost predicate StartsFrom(start: Place, log: seq<Attempt>) {
    log != [] ==> start.xt.Some? && log[0].fulfilled == start.xt.value.box.fulfilled
  }

  /** Holds throughout a run, whatever state it is in. */
  ghost predicate Steady(start: Place, base: StateOverride, r: Run) {
    && Chained(base, r.log) && Growing(r.log) && StartsFrom(start, r.log)
    && PlaceOk(start, r.place, r.used) && WireOk(start, r)
  }

  /** The fulfilled list the pipeline knows is the one of the XT, as long as that is there. */
  ghost predicate UpToDate(start: Place, r: Run) {
    && start.xt.Some? && |r.fulfilled| == |start.xt.value.box.fulfilled| + |r.used|
    && (r.place.xt.Some? ==> r.place.xt.value.box.fulfilled == r.fulfilled)
  }

  /** Holds whenever transaction `i` is about to be simulated. */
  ghost predicate AtAttempt(start: Place, base: StateOverride, i: nat, r: Run) {
    && Steady(start, base, r) && UpToDate(start, r) && |r.sends| == |r.log|
    && Successes(r.log) == i && |r.log| <= i + |r.used| && r.carried == Carry(base, r.log)
    && (if r.log == [] then r.fulfilled == start.xt.value.box.fulfilled else Grows(r.log[|r.log| - 1], r.fulfilled))
  }

  /** Holds once the simulator has given answer `a` for transaction `i`. */
  ghost predicate Answered(start: Place, base: StateOverride, i: nat, a: Attempt, r: Run) {
    && Steady(start, base, r) && UpToDate(start, r)
    && r.log != [] && r.log[|r.log| - 1] == a && a.fulfilled == r.fulfilled
    && Successes(r.log) == (if Succeeded(a) then i + 1 else i)
    && |r.log| <= i + 1 + |r.used| && r.carried == Carry(base, r.log)
    && (a.result.Ok? && r.place.xt.Some? ==> Ready(r.place.xt.value, a.result.value.dependencies))
  }

  datatype Outcome =
    | NoTransactions | Rejected | NoSimulator | AllSimulated
    | SimulatorError | FailedWithoutDependencies | FailedThoughFulfilled | DispatchFailed | TimedOut
    | Disappeared

  function VoteFor(o: Outcome): Option<bool> {
    match o
    case AllSimulated | NoSimulator => Some(true)
    case Disappeared => None
    case _ => Some(false)
  }

  predicate AllFulfilled(deps: seq<Dependency>, fulfilled: seq<Dependency>) {
    forall d :: d in deps ==> exists f :: f in fulfilled && DependencyKeysEqual(f, d)
  }

  /** What an attempt after which the run stops with `o` looks like. */
  ghost predicate Reason(o: Outcome, a: Attempt) {
    match o
    case SimulatorError => a.result.Err?
    case FailedWithoutDependencies => a.result.Ok? && !Succeeded(a) && a.result.value.dependencies == []
    case FailedThoughFulfilled =>
      && a.result.Ok? && !Succeeded(a) && a.result.value.dependencies != []
      && AllFulfilled(a.result.value.dependencies, a.fulfilled)
    case DispatchFailed => a.result.Ok? && a.result.value.outbound != []
    case TimedOut | Disappeared =>
      a.result.Ok? && !Succeeded(a) && !AllFulfilled(a.result.value.dependencies, a.fulfilled)
    case _ => false
  }

  /** The last attempt of a run is the reason for its outcome. */
  ghost predicate Explained(o: Outcome, log: seq<Attempt>) {
    log != [] && Reason(o, log[|log| - 1])
  }

  datatype Next = Advance | Again | Stop(outcome: Outcome)

  lemma SubBag(a: multiset<Message>, b: multiset<Message>)
    requires a <= b
    ensures |a| <= |b|
  {
    assert b == a + (b - a);
  }

  lemma UsingShrinks(s: Place, s': Place, used: seq<Message>)
    requires Accounts(s, s', used)
    ensures |Bag(s')| + |used| <= |Bag(s)|
  {
    SubBag(Bag(s') + multiset(used), Bag(s));
  }

  lemma SameBagAccounts(start: Place, s: Place, s': Place, used: seq<Message>)
    requires Accounts(start, s, used) && Bag(s') == Bag(s) && s'.xt.Some? == s.xt.Some?
    ensures Accounts(start, s', used)
  {
  }

  lemma PlacePasses(start: Place, s: Place, s': Place, used: seq<Message>)
    requires PlaceOk(start, s, used) && Passes(s, s')
    ensures PlaceOk(start, s', used) && |Bag(s')| <= |Bag(s)|
  {
    AccountsAdd(start, s, s', used, []);
    assert used + [] == used;
    UsingShrinks(s, s', []);
    if s'.xt.Some? { BooksCarryOver(s.xt.value, s'.xt.value); }
  }

  lemma AnswerPasses(start: Place, base: StateOverride, i: nat, a: Attempt, r: Run, s': Place)
    requires Answered(start, base, i, a, r) && Passes(r.place, s') && SameWire(r.place, s')
    ensures Answered(start, base, i, a, r.(place := s')) && |Bag(s')| <= |Bag(r.place)|
  {
    PlacePasses(start, r.place, s', r.used);
    if a.result.Ok? && s'.xt.Some? { ReadyCarriesOver(r.place.xt.value, s'.xt.value, a.result.value.dependencies); }
  }

  lemma AttemptLogged(base: StateOverride, i: nat, r: Run, a: Attempt)
    requires Chained(base, r.log) && Growing(r.log) && (r.log != [] ==> Grows(r.log[|r.log| - 1], r.fulfilled))
    requires Successes(r.log) == i && r.carried == Carry(base, r.log)
    requires a.index == i && a.overrides == r.carried && a.fulfilled == r.fulfilled
    ensures Chained(base, r.log + [a]) && Growing(r.log + [a])
    ensures Successes(r.log + [a]) == if Succeeded(a) then i + 1 else i
    ensures Carry(base, r.log + [a]) == AfterAttempt(r.carried, a)
  {
    ChainedAppend(base, r.log, a);
    GrowingAppend(r.log, a);
    CarryAppend(base, r.log, a);
  }

  /** Recording an answer changes the books, not the fulfilled list. */
  lemma RecordedPlaceOk(start: Place, s: Place, s': Place, used: seq<Message>)
    requires PlaceOk(start, s, used) && Bag(s') == Bag(s) && s'.xt.Some? == s.xt.Some?
    requires s.xt.Some? ==> Bookkept(s'.xt.value) && s'.xt.value.box == s.xt.value.box
    ensures PlaceOk(start, s', used)
  {
    SameBagAccounts(start, s, s', used);
  }

  lemma WireLogged(x: PendingXt, log: seq<Attempt>, sends: seq<seq<Message>>, gone: bool, a: Attempt)
    requires Wire(x, log, sends, gone)
    ensures Wire(x, log + [a], sends, gone)
  {
    forall k | 0 <= k < |sends| ensures Unsent(x, log + [a], sends, k) == Unsent(x, log, sends, k) {
    }
  }

  lemma KeysSentAppend(sends: seq<seq<Message>>, sent: seq<Message>)
    ensures KeysSent(sends + [sent]) == KeysSent(sends) + SentKeys(sent)
  {
    var all := sends + [sent];
    assert all[..|all| - 1] == sends;
  }

  lemma UnsentPrefix(x: PendingXt, log: seq<Attempt>, sends: seq<seq<Message>>, sent: seq<Message>, k: nat)
    requires k < |log| && k <= |sends|
    ensures Unsent(x, log, sends + [sent], k) == Unsent(x, log, sends, k)
  {
    assert (sends + [sent])[..k] == sends[..k];
  }

  /** One more answer has put on the wire what it had to send, or nothing because the XT was gone. */
  lemma WireSent(x: PendingXt, log: seq<Attempt>, sends: seq<seq<Message>>, gone: bool, sent: seq<Message>)
    requires Wire(x, log, sends, gone) && |sends| < |log|
    requires SentAt(sent, Unsent(x, log, sends, |sends|), gone)
    ensures Wire(x, log, sends + [sent], gone) && KeysSent(sends + [sent]) == KeysSent(sends) + SentKeys(sent)
  {
    KeysSentAppend(sends, sent);
    var all := sends + [sent];
    forall k | 0 <= k < |all| ensures SentAt(all[k], Unsent(x, log, all, k), gone) {
      UnsentPrefix(x, log, sends, sent, k);
      if k < |sends| { assert SentAt(sends[k], Unsent(x, log, sends, k), gone); }
    }
  }

  lemma WirePasses(start: Place, r: Run, s: Place)
    requires WireOk(start, r) && SameWire(r.place, s)
    ensures WireOk(start, r.(place := s))
  {
  }

  /** The run once answer `a` is on record. */
  ghost function AfterAnswer(r: Run, a: Attempt, s: Place): Run {
    r.(place := s, carried := AfterAttempt(r.carried, a), log := r.log + [a])
  }

  lemma AnswerWire(start: Place, r: Run, a: Attempt, s: Place)
    requires start.xt.Some? && WireOk(start, r) && SameWire(r.place, s)
    ensures WireOk(start, AfterAnswer(r, a, s))
  {
    WireLogged(start.xt.value, r.log, r.sends, r.place.xt.None?, a);
  }

  lemma AnswerStarts(start: Place, log: seq<Attempt>, a: Attempt)
    requires start.xt.Some? && StartsFrom(start, log)
    requires log == [] ==> a.fulfilled == start.xt.value.box.fulfilled
    ensures StartsFrom(start, log + [a])
  {
  }

  lemma LastLogged(log: seq<Attempt>, a: Attempt)
    ensures var l := log + [a]; l != [] && l[|l| - 1] == a && |l| == |log| + 1
  {
  }

  lemma AnswerSteady(start: Place, base: StateOverride, i: nat, r: Run, a: Attempt, s: Place)
    requires AtAttempt(start, base, i, r) && PlaceOk(start, s, r.used) && SameWire(r.place, s)
    requires a.index == i && a.overrides == r.carried && a.fulfilled == r.fulfilled
    ensures Steady(start, base, AfterAnswer(r, a, s))
  {
    AttemptLogged(base, i, r, a);
    AnswerWire(start, r, a, s);
    AnswerStarts(start, r.log, a);
  }

  lemma AnswerOnRecord(start: Place, base: StateOverride, i: nat, r: Run, a: Attempt, s: Place)
    requires AtAttempt(start, base, i, r) && PlaceOk(start, s, r.used)
    requires a.index == i && a.overrides == r.carried && a.fulfilled == r.fulfilled
    requires s.xt.Some? ==> s.xt.value.box.fulfilled == r.fulfilled
    requires a.result.Ok? && s.xt.Some? ==> Ready(s.xt.value, a.result.value.dependencies)
    requires SameWire(r.place, s)
    ensures Answered(start, base, i, a, AfterAnswer(r, a, s))
  {
    AttemptLogged(base, i, r, a);
    AnswerSteady(start, base, i, r, a, s);
    LastLogged(r.log, a);
  }

  /** Recording the answer at a place where the XT may have gone meanwhile. */
  method RecordAnswer(s: Place, a: Attempt, ghost start: Place, ghost used: seq<Message>)
    returns (s': Place, carried: StateOverride)
    requires PlaceOk(start, s, used) && a.recorded == s.xt.Some?
    ensures PlaceOk(start, s', used) && s'.xt.Some? == s.xt.Some? && Bag(s') == Bag(s) && SameWire(s, s')
    ensures s.xt.Some? ==> s'.xt.value.box.fulfilled == s.xt.value.box.fulfilled
    ensures a.result.Ok? && s'.xt.Some? ==> Ready(s'.xt.value, a.result.value.dependencies)
    ensures carried == AfterAttempt(a.overrides, a)
  {
    if a.result.Err? { return s, a.overrides; }
    s', carried := RecordSimulationState(s, a.result.value, a.overrides);
    RecordedPlaceOk(start, s, s', used);
  }

  /** One call of the simulator, with its answer recorded. */
  method CallSimulator(ghost start: Place, ghost base: StateOverride, i: nat, tx: Tx, r: Run, sim: Simulator)
    returns (a: Attempt, r': Run)
    requires AtAttempt(start, base, i, r)
    ensures a.index == i && a.overrides == r.carried && a.fulfilled == r.fulfilled
    ensures a.result == sim(|r.log|, tx, r.carried, r.fulfilled)
    ensures r'.log == r.log + [a] && r'.sends == r.sends
    ensures Answered(start, base, i, a, r') && |Bag(r'.place)| <= |Bag(r.place)|
  {
    var result := sim(|r.log|, tx, r.carried, r.fulfilled);
    var s := Tick(r.place);
    TickPasses(r.place);
    PlacePasses(start, r.place, s, r.used);
    a := Attempt(i, r.carried, r.fulfilled, result, s.xt.Some?);
    var s', carried := RecordAnswer(s, a, start, r.used);
    AnswerOnRecord(start, base, i, r, a, s');
    r' := r.(place := s', carried := carried, log := r.log + [a]);
  }

  /** The answers that end the run at once. */
  function Refused(a: Attempt): (o: Option<Outcome>)
    ensures o.Some? ==> Reason(o.value, a) && !o.value.Disappeared?
    ensures o.None? ==> a.result.Ok? && (!Succeeded(a) ==> !AllFulfilled(a.result.value.dependencies, a.fulfilled))
  {
    if a.result.Err? then Some(SimulatorError)
    else if !a.result.value.success && a.result.value.dependencies == [] then Some(FailedWithoutDependencies)
    else if !a.result.value.success && AllFulfilled(a.result.value.dependencies, a.fulfilled)
        then Some(FailedThoughFulfilled)
    else None
  }

  /** The run ends at once on an error, and on a failure none of whose dependencies is still to be fulfilled. */
  lemma RefusedExactlyWhen(a: Attempt)
    ensures Refused(a).Some? <==>
            || a.result.Err?
            || (!a.result.value.success && forall d :: d in a.result.value.dependencies ==>
                  exists e :: e in a.fulfilled && KeyOf(e) == KeyOf(d))
  {
    if a.result.Ok? {
      forall d, e | d in a.result.value.dependencies && e in a.fulfilled
        ensures DependencyKeysEqual(e, d) <==> KeyOf(e) == KeyOf(d)
      {
      }
    }
  }

  /** The run after answer `a` put `sent` on the wire at place `s`. */
  function AfterSend(r: Run, s: Place, sent: seq<Message>): Run {
    r.(place := s, sends := r.sends + [sent])
  }

  lemma SendWire(start: Place, r: Run, s: Place, sent: seq<Message>)
    requires start.xt.Some? && WireOk(start, r) && |r.sends| == |r.log| - 1 && s.xt.Some? == r.place.xt.Some?
    requires var a := r.log[|r.log| - 1];
             sent == if Refused(a).Some? || r.place.xt.None? then []
                     else FirstPerKey(Wired(r.place.xt.value.rawId, a.result.value.outbound),
                                      r.place.xt.value.sentKeys)
    requires s.xt.Some? ==>
               && s.xt.value.rawId == r.place.xt.value.rawId && s.xt.value.locked == r.place.xt.value.locked
               && s.xt.value.sentKeys == r.place.xt.value.sentKeys + SentKeys(sent)
    ensures WireOk(start, AfterSend(r, s, sent))
  {
    assert r.sends[..|r.sends|] == r.sends;
    WireSent(start.xt.value, r.log, r.sends, r.place.xt.None?, sent);
  }

  lemma SendAnswered(start: Place, base: StateOverride, i: nat, a: Attempt, r: Run, s: Place, sent: seq<Message>)
    requires Answered(start, base, i, a, r) && |r.sends| == |r.log| - 1 && Passes(r.place, s)
    requires sent == if Refused(a).Some? || r.place.xt.None? then []
                     else FirstPerKey(Wired(r.place.xt.value.rawId, a.result.value.outbound),
                                      r.place.xt.value.sentKeys)
    requires s.xt.Some? == r.place.xt.Some?
    requires s.xt.Some? ==>
               && s.xt.value.rawId == r.place.xt.value.rawId && s.xt.value.locked == r.place.xt.value.locked
               && s.xt.value.sentKeys == r.place.xt.value.sentKeys + SentKeys(sent)
    ensures Answered(start, base, i, a, AfterSend(r, s, sent)) && |Bag(s)| <= |Bag(r.place)|
  {
    PlacePasses(start, r.place, s, r.used);
    SendWire(start, r, s, sent);
    if a.result.Ok? && s.xt.Some? { ReadyCarriesOver(r.place.xt.value, s.xt.value, a.result.value.dependencies); }
  }

  lemma StaysPut(s: Place)
    ensures Passes(s, s)
  {
  }

  lemma RefusalTurns(start: Place, base: StateOverride, i: nat, a: Attempt, r: Run)
    requires Answered(start, base, i, a, r) && |r.sends| == |r.log| - 1 && Refused(a).Some?
    ensures Turned(start, base, i, Stop(Refused(a).value), AfterSend(r, r.place, []))
  {
    StaysPut(r.place);
    SendAnswered(start, base, i, a, r, r.place, []);
  }

  lemma StopTurns(start: Place, base: StateOverride, i: nat, a: Attempt, r: Run, o: Outcome)
    requires Answered(start, base, i, a, r) && |r.sends| == |r.log| && Reason(o, a)
    requires !o.Disappeared? && !o.TimedOut?
    ensures Turned(start, base, i, Stop(o), r)
  {
  }

  lemma AdvanceTurns(start: Place, base: StateOverride, i: nat, a: Attempt, r: Run)
    requires Answered(start, base, i, a, r) && |r.sends| == |r.log| && Succeeded(a)
    ensures Turned(start, base, i, Advance, r)
  {
  }

  /** What goes on the wire is delivered, except that the last of it may end the run. */
  ghost predicate Delivery(next: Next, sends: seq<seq<Message>>, delivered: nat -> bool) {
    if next != Stop(DispatchFailed) then AllDelivered(sends, delivered, |sends|)
    else
      && sends != [] && AllDelivered(sends, delivered, |sends| - 1)
      && sends[|sends| - 1] != [] && !delivered(|sends| - 1)
  }

  lemma DeliveryGrows(
      next: Next, sends: seq<seq<Message>>, sent: seq<Message>, delivered: nat -> bool)
    requires AllDelivered(sends, delivered, |sends|)
    requires next == Stop(DispatchFailed) <==> sent != [] && !delivered(|sends|)
    ensures Delivery(next, sends + [sent], delivered)
  {
  }

  /** The new attempts from `log` to `log'` are for transaction `i`, and each asks the simulator about it. */
  ghost predicate AskedOn(log: seq<Attempt>, log': seq<Attempt>, i: nat, tx: Tx, sim: Simulator) {
    && log <= log'
    && forall k :: |log| <= k < |log'| ==>
         log'[k].index == i && log'[k].result == sim(k, tx, log'[k].overrides, log'[k].fulfilled)
  }

  lemma AskedOnce(log: seq<Attempt>, mid: seq<Attempt>, i: nat, tx: Tx, sim: Simulator, a: Attempt)
    requires AskedOn(log, mid, i, tx, sim)
    requires a.index == i && a.result == sim(|mid|, tx, a.overrides, a.fulfilled)
    ensures AskedOn(log, mid + [a], i, tx, sim)
  {
  }

  lemma AskedAll(log: seq<Attempt>, log': seq<Attempt>, txs: seq<Tx>, i: nat, sim: Simulator)
    requires Asked(log, txs, sim) && i < |txs| && AskedOn(log, log', i, txs[i], sim)
    ensures Asked(log', txs, sim)
  {
  }

  /** One turn of the retry loop. */
  method TryOnce(
      ghost start: Place, ghost base: StateOverride, i: nat, tx: Tx, r: Run, sim: Simulator, delivered: nat -> bool)
    returns (next: Next, r': Run)
    requires AtAttempt(start, base, i, r) && AllDelivered(r.sends, delivered, |r.sends|)
    ensures Turned(start, base, i, next, r') && Delivery(next, r'.sends, delivered)
    ensures |r'.log| == |r.log| + 1 && AskedOn(r.log, r'.log, i, tx, sim)
    ensures next.Again? ==> |Bag(r'.place)| < |Bag(r.place)|
  {
    var a, r1 := CallSimulator(start, base, i, tx, r, sim);
    AskedOnce(r.log, r.log, i, tx, sim, a);
    var refused := Refused(a);
    if refused.Some? {
      RefusalTurns(start, base, i, a, r1);
      DeliveryGrows(Stop(refused.value), r.sends, [], delivered);
      return Stop(refused.value), AfterSend(r1, r1.place, []);
    }
    ghost var sent;
    next, r', sent := DispatchAndAwait(start, base, i, a, r1, delivered(|r.log|));
    DeliveryGrows(next, r.sends, sent, delivered);
  }

  /** What one turn leaves: the next transaction to simulate, this one again, or an explained end. */
  ghost predicate Turned(start: Place, base: StateOverride, i: nat, next: Next, r: Run) {
    && Steady(start, base, r) && |r.log| <= i + 1 + |r.used| && |r.sends| == |r.log|
    && match next
       case Advance => AtAttempt(start, base, i + 1, r)
       case Again => AtAttempt(start, base, i, r)
       case Stop(outcome) => Ended(outcome, r)
  }

  /** A run that stopped: its last answer explains why, and nothing waiting would have helped a run that timed out. */
  ghost predicate Ended(o: Outcome, r: Run) {
    && Explained(o, r.log) && (o.Disappeared? ==> r.place.xt.None?)
    && (o.TimedOut? ==> Stuck(r.place, r.log[|r.log| - 1].result.value.dependencies))
  }

  /** Anything may happen to the XT before each of these steps, its removal included. */
  method DispatchAndAwait(
      ghost start: Place, ghost base: StateOverride, ghost i: nat, a: Attempt, r: Run, delivered: bool)
    returns (next: Next, r': Run, ghost sent: seq<Message>)
    requires Answered(start, base, i, a, r) && |r.sends| == |r.log| - 1 && Refused(a).None?
    ensures Turned(start, base, i, next, r') && r'.log == r.log && r'.sends == r.sends + [sent]
    ensures next == Stop(DispatchFailed) <==> sent != [] && !delivered
    ensures next.Again? ==> |Bag(r'.place)| < |Bag(r.place)|
  {
    TickPasses(r.place);
    AnswerPasses(start, base, i, a, r, Tick(r.place));
    var r1 := r.(place := Tick(r.place));
    var s, out, ok := Dispatch(r1.place, a.result.value.outbound, delivered);
    SendAnswered(start, base, i, a, r1, s, out);
    r1 := AfterSend(r1, s, out);
    sent := out;
    if !ok {
      StopTurns(start, base, i, a, r1, DispatchFailed);
      return Stop(DispatchFailed), r1, sent;
    }
    if a.result.value.success {
      AdvanceTurns(start, base, i, a, r1);
      return Advance, r1, sent;
    }
    TickPasses(s);
    AnswerPasses(start, base, i, a, r1, Tick(s));
    next, r' := AwaitAndRefresh(start, base, i, a, r1.(place := Tick(s)));
  }

  lemma WaitKeepsPlace(start: Place, s: Place, s': Place, used: seq<Message>, more: seq<Message>, deps: seq<Dependency>)
    requires PlaceOk(start, s, used) && Accounts(s, s', more) && Waited(s, s', deps, |more|)
    ensures PlaceOk(start, s', used + more) && |Bag(s')| + |more| <= |Bag(s)|
  {
    AccountsAdd(start, s, s', used, more);
    UsingShrinks(s, s', more);
  }

  /** The run after a wait that used `more`. */
  function AfterWait(r: Run, s: Place, more: seq<Message>): Run {
    r.(place := s, used := r.used + more)
  }

  lemma WaitTurns(start: Place, base: StateOverride, i: nat, a: Attempt, r: Run, s: Place, more: seq<Message>)
    requires Answered(start, base, i, a, r) && |r.sends| == |r.log| && Reason(TimedOut, a)
    requires PlaceOk(start, s, r.used + more) && SameWire(r.place, s)
    ensures Stuck(s, a.result.value.dependencies) ==> Turned(start, base, i, Stop(TimedOut), AfterWait(r, s, more))
    ensures s.xt.None? ==> Turned(start, base, i, Stop(Disappeared), AfterWait(r, s, more))
  {
    WirePasses(start, r, s);
  }

  lemma AgainTurns(start: Place, base: StateOverride, i: nat, a: Attempt, r: Run, s: Place, more: seq<Message>)
    requires Answered(start, base, i, a, r) && |r.sends| == |r.log| && !Succeeded(a)
    requires PlaceOk(start, s, r.used + more) && more != [] && SameWire(r.place, s)
    requires s.xt.Some? && a.fulfilled <= s.xt.value.box.fulfilled
    ensures Turned(start, base, i, Again, AfterWait(r, s, more).(fulfilled := s.xt.value.box.fulfilled))
  {
    WirePasses(start, r, s);
  }

  lemma WaitExtends(s: Place, s': Place, s'': Place, deps: seq<Dependency>, n: nat)
    requires Waited(s, s', deps, n) && Passes(s', s'')
    ensures s''.xt.Some? ==> s.xt.Some? && s.xt.value.box.fulfilled <= s''.xt.value.box.fulfilled
  {
  }

  /** The end of an unsuccessful attempt whose dependencies are not all fulfilled yet. */
  method AwaitAndRefresh(ghost start: Place, ghost base: StateOverride, ghost i: nat, a: Attempt, r: Run)
    returns (next: Next, r': Run)
    requires Answered(start, base, i, a, r) && |r.sends| == |r.log| && Reason(TimedOut, a)
    ensures Turned(start, base, i, next, r') && !next.Advance? && next != Stop(DispatchFailed)
    ensures r'.log == r.log && r'.sends == r.sends
    ensures next.Again? ==> |Bag(r'.place)| < |Bag(r.place)|
  {
    var ok, s, more := WaitForDependencies(r.place, a.result.value.dependencies);
    WaitKeepsPlace(start, r.place, s, r.used, more, a.result.value.dependencies);
    if !ok {
      WaitTurns(start, base, i, a, r, s, more);
      return Stop(TimedOut), AfterWait(r, s, more);
    }
    var s1 := Tick(s);
    TickPasses(s);
    PlacePasses(start, s, s1, r.used + more);
    WaitExtends(r.place, s, s1, a.result.value.dependencies, |more|);
    if s1.xt.None? {
      WaitTurns(start, base, i, a, r, s1, more);
      return Stop(Disappeared), AfterWait(r, s1, more);
    }
    AgainTurns(start, base, i, a, r, s1, more);
    return Again, AfterWait(r, s1, more).(fulfilled := s1.xt.value.box.fulfilled);
  }

  /** The retry loop for one transaction: every turn that does not end it uses up a message. */
  method SimulateTransaction(
      ghost start: Place, ghost base: StateOverride, i: nat, tx: Tx, r: Run, sim: Simulator, delivered: nat -> bool)
    returns (next: Next, r': Run)
    requires AtAttempt(start, base, i, r) && AllDelivered(r.sends, delivered, |r.sends|)
    ensures Turned(start, base, i, next, r') && !next.Again? && Delivery(next, r'.sends, delivered)
    ensures |r.log| < |r'.log| && AskedOn(r.log, r'.log, i, tx, sim)
  {
    next, r' := TryOnce(start, base, i, tx, r, sim, delivered);
    while next.Again?
      invariant Turned(start, base, i, next, r') && Delivery(next, r'.sends, delivered)
      invariant |r.log| < |r'.log| && AskedOn(r.log, r'.log, i, tx, sim)
      decreases if next.Again? then 1 else 0, |Bag(r'.place)|
    {
      next, r' := TryOnce(start, base, i, tx, r', sim, delivered);
    }
  }

  lemma FirstAttempt(start: Place, base: StateOverride)
    requires start.xt.Some? && Bookkept(start.xt.value)
    ensures AtAttempt(start, base, 0, Run(start, base, start.xt.value.box.fulfilled, [], [], []))
  {
  }

  /** What the simulation of a whole slice leaves. */
  ghost predicate SliceRun(start: Place, base: StateOverride, txs: seq<Tx>, o: Outcome, r: Run) {
    && Steady(start, base, r) && |r.log| <= |txs| + |r.used| && |r.sends| == |r.log|
    && (o.AllSimulated? ==> Successes(r.log) == |txs| && r.carried == Carry(base, r.log))
    && (!o.AllSimulated? ==> Ended(o, r))
  }

  /** The run of a whole slice, from the local transactions of the XT and the overlay of its chain. */
  method SimulateAll(start: Place, base: StateOverride, txs: seq<Tx>, sim: Simulator, delivered: nat -> bool)
    returns (outcome: Outcome, r: Run)
    requires start.xt.Some? && Bookkept(start.xt.value)
    ensures SliceRun(start, base, txs, outcome, r)
    ensures Asked(r.log, txs, sim) && Delivery(Stop(outcome), r.sends, delivered)
  {
    r := Run(start, base, start.xt.value.box.fulfilled, [], [], []);
    FirstAttempt(start, base);
    for i := 0 to |txs|
      invariant AtAttempt(start, base, i, r) && Asked(r.log, txs, sim) && AllDelivered(r.sends, delivered, |r.sends|)
    {
      var next, r1 := SimulateTransaction(start, base, i, txs[i], r, sim, delivered);
      AskedAll(r.log, r1.log, txs, i, sim);
      r := r1;
      if next.Stop? { return next.outcome, r; }
    }
    return AllSimulated, r;
  }

  function LocalTxs(s: Place, self: ChainId): seq<Tx> {
    if s.xt.Some? && HasLocal(s.xt.value, self) then s.xt.value.rawTxs[self] else []
  }

  lemma MergeOntoNothing(o: StateOverride)
    ensures Merge(map[], o) == o
  {
  }

  /** Outcomes of a run that never called the simulator. */
  predicate WithoutCall(o: Outcome) {
    o.NoTransactions? || o.Rejected? || o.NoSimulator? || o.Disappeared?
  }

  /**
    A finished run: the simulator was called at most once per local transaction
    plus once per dependency fulfilled during the run, each of which used up a
    message of its own; each answer put its unsent messages on the wire; and the
    outcome is explained by the last answer.
   */
  ghost predicate Completed(start: Place, base: StateOverride, txs: seq<Tx>, o: Outcome, r: Run) {
    && Steady(start, base, r) && |r.log| <= |txs| + |r.used| && |r.sends| == |r.log|
    && (r.log == [] ==> r.used == [] && WithoutCall(o)) && (o.Disappeared? ==> r.place.xt.None?)
    && (o.AllSimulated? ==> Successes(r.log) == |txs| && r.carried == Carry(base, r.log))
    && (r.log != [] && !o.AllSimulated? ==> Ended(o, r))
  }

  function NoRun(s: Place, base: StateOverride): Run {
    Run(s, base, [], [], [], [])
  }

  lemma NothingRun(start: Place, s: Place, base: StateOverride, txs: seq<Tx>, o: Outcome)
    requires Passes(start, s) && SameWire(start, s) && (start.xt.Some? ==> Bookkept(start.xt.value))
    requires WithoutCall(o) && (o.Disappeared? ==> s.xt.None?)
    ensures Completed(start, base, txs, o, NoRun(s, base))
    ensures s.xt.Some? ==> Bookkept(s.xt.value)
  {
    if s.xt.Some? { BooksCarryOver(start.xt.value, s.xt.value); }
  }

  function Lock(s: Place, self: ChainId): Place {
    if s.xt.None? then s else s.(xt := Some(s.xt.value.(locked := s.xt.value.locked + {self})))
  }

  lemma PassesOn(s: Place, s1: Place, s2: Place)
    requires Passes(s, s1) && Passes(s1, s2) && SameWire(s, s1) && SameWire(s1, s2)
    ensures Passes(s, s2) && SameWire(s, s2)
  {
    AccountsAdd(s, s1, s2, [], []);
  }

  lemma LockingPasses(start: Place, s: Place, self: ChainId)
    requires Passes(start, s) && SameWire(start, s)
    ensures Passes(start, Lock(s, self)) && SameWire(start, Lock(s, self))
    ensures Passes(start, Tick(Lock(s, self))) && SameWire(start, Tick(Lock(s, self)))
  {
    PassesOn(start, s, Lock(s, self));
    TickPasses(Lock(s, self));
    PassesOn(start, Lock(s, self), Tick(Lock(s, self)));
  }

  lemma LaterStart(start: Place, s0: Place, base: StateOverride, r: Run)
    requires Steady(s0, base, r) && Passes(start, s0) && SameWire(start, s0) && s0.xt.Some?
    ensures Steady(start, base, r)
  {
    AccountsAdd(start, s0, r.place, [], r.used);
    assert [] + r.used == r.used;
    forall k | 0 <= k < |r.sends|
      ensures Unsent(start.xt.value, r.log, r.sends, k) == Unsent(s0.xt.value, r.log, r.sends, k)
    {
    }
  }

  lemma LockedNow(s: Place, self: ChainId)
    ensures Lock(s, self).xt.Some? ==> self in Lock(s, self).xt.value.locked
    ensures Tick(Lock(s, self)).xt.Some? ==> self in Tick(Lock(s, self)).xt.value.locked
  {
    TickPasses(Lock(s, self));
  }

  lemma NoSuccesses(log: seq<Attempt>)
    ensures log == [] ==> Successes(log) == 0
  {
  }

  lemma LaterCompleted(
      start: Place, s0: Place, self: ChainId, base: StateOverride, txs: seq<Tx>, o: Outcome, r: Run)
    requires SliceRun(s0, base, txs, o, r) && Passes(start, s0) && SameWire(start, s0) && s0.xt.Some? && txs != []
    requires self in s0.xt.value.locked
    ensures Completed(start, base, txs, o, r) && (r.place.xt.Some? ==> self in r.place.xt.value.locked)
  {
    LaterStart(start, s0, base, r);
    NoSuccesses(r.log);
  }

  /** From the lock of the local chain on; the XT may be gone by then. */
  method LockAndSimulate(
      ghost start: Place, s: Place, self: ChainId, base: StateOverride, txs: seq<Tx>, simulator: Option<Simulator>,
      delivered: nat -> bool)
    returns (outcome: Outcome, r: Run)
    requires start.xt.Some? && Bookkept(start.xt.value) && txs != [] && Passes(start, s) && SameWire(start, s)
    ensures Completed(start, base, txs, outcome, r) && Delivery(Stop(outcome), r.sends, delivered)
    ensures outcome.NoSimulator? <==> simulator.None?
    ensures simulator.Some? ==> Asked(r.log, txs, simulator.value)
    ensures !outcome.NoTransactions? && !outcome.Rejected?
    ensures r.place.xt.Some? ==> self in r.place.xt.value.locked
  {
    var locked := Lock(s, self);
    LockingPasses(start, s, self);
    LockedNow(s, self);
    if simulator.None? {
      NothingRun(start, locked, base, txs, NoSimulator);
      return NoSimulator, NoRun(locked, base);
    }
    var s0 := Tick(locked);
    NothingRun(start, s0, base, txs, if s0.xt.None? then Disappeared else NoSimulator);
    if s0.xt.None? { return Disappeared, NoRun(s0, base); }
    outcome, r := SimulateAll(s0, base, txs, simulator.value, delivered);
    LaterCompleted(start, s0, self, base, txs, outcome, r);
  }

  /**
    The whole pipeline. It votes yes exactly when the checks passed and every local
    transaction was simulated on the simulator's own answers, or there is no
    simulator; it casts no vote exactly when the XT is gone.
   */
  method ProcessXt(
      start: Place, self: ChainId, overlay: Option<StateOverride>, verified: bool, permitted: bool,
      simulator: Option<Simulator>, delivered: nat -> bool)
    returns (outcome: Outcome, vote: Option<bool>, r: Run)
    requires start.xt.Some? ==> Bookkept(start.xt.value)
    ensures Completed(start, if overlay.Some? then overlay.value else map[], LocalTxs(start, self), outcome, r)
    ensures Delivery(Stop(outcome), r.sends, delivered)
    ensures outcome.NoTransactions? <==> start.xt.Some? && LocalTxs(start, self) == []
    ensures outcome.Rejected? <==> LocalTxs(start, self) != [] && !(verified && permitted)
    ensures outcome.NoSimulator? <==> LocalTxs(start, self) != [] && verified && permitted && simulator.None?
    ensures simulator.Some? ==> Asked(r.log, LocalTxs(start, self), simulator.value)
    ensures r.place.xt.Some? && !outcome.NoTransactions? && !outcome.Rejected? ==> self in r.place.xt.value.locked
    ensures vote == Some(true) <==> outcome.AllSimulated? || outcome.NoSimulator?
    ensures vote.None? <==> outcome.Disappeared?
    ensures vote == Some(true) ==>
              LocalTxs(start, self) != [] && verified && permitted
                  && (simulator.Some? ==> Successes(r.log) == |LocalTxs(start, self)|)
  {
    var base: StateOverride := map[];
    if overlay.Some? {
      base := MergeOverrides(base, overlay.value);
      MergeOntoNothing(overlay.value);
    }
    if start.xt.None? || !HasLocal(start.xt.value, self) {
      outcome, r := if start.xt.None? then Disappeared else NoTransactions, NoRun(start, base);
      NothingRun(start, start, base, LocalTxs(start, self), outcome);
      return outcome, VoteFor(outcome), r;
    }
    var checked := Tick(start);
    TickPasses(start);
    if !verified || !permitted {
      NothingRun(start, checked, base, LocalTxs(start, self), Rejected);
      return Rejected, VoteFor(Rejected), NoRun(checked, base);
    }
    outcome, r := LockAndSimulate(start, checked, self, base, start.xt.value.rawTxs[self], simulator, delivered);
    vote := VoteFor(outcome);
  }
}
