/** Mailbox calls in a call trace: the explicit-stack walk, the recursive one, and the verdict on a simulation. */
module TraceWalk {
  import opened Prelude
  import opened Matching
  import opened Overrides
  import opened TraceDiff

  const MAX_TRACE_DEPTH: nat := 1024

  datatype Header = Header(
    chainSrc: u256, chainDest: u256, sender: Address, receiver: Address, sessionId: u256, labelBytes: bytes)

  /** Calldata by its selector; `None` where the arguments do not decode. Input under four bytes is `Other`. */
  datatype Input =
    | Other
    | WriteInput(message: Option<(Header, bytes)>)
    | ReadInput(header: Option<Header>)

  /** The `error` field of a frame: absent, not a JSON string, or a string. */
  datatype ErrorField = Absent | NotText | Text(text: string)

  /** One frame of a call trace; addresses that do not parse are `None`. */
  datatype Frame = Frame(caller: Option<Address>, to: Option<Address>, input: Input, error: ErrorField,
      calls: seq<Frame>)

  datatype MailboxCall = MailboxCall(
    sourceChain: u64, destChain: u64, sender: Address, receiver: Address,
    labelBytes: bytes, data: bytes, sessionId: u256, reverted: bool)

  datatype Parsed = Parsed(readCalls: seq<MailboxCall>, writeCalls: seq<MailboxCall>)

  const NOTHING: Parsed := Parsed([], [])

  function Join(a: Parsed, b: Parsed): Parsed {
    Parsed(a.readCalls + b.readCalls, a.writeCalls + b.writeCalls)
  }

  // ---------- One frame ----------

  predicate Reverted(f: Frame) {
    f.error.Text? && f.error.text != ""
  }

  /** A chain id above 64 bits does not decode; the header's own view of the local chain is ignored. */
  function DecodeWrite(f: Frame, local: u64): Option<MailboxCall>
    requires f.input.WriteInput?
  {
    if f.input.message.None? || f.input.message.value.0.chainDest > U64_MAX then None
    else
      var h := f.input.message.value.0;
      Some(MailboxCall(local, h.chainDest, h.sender, h.receiver, h.labelBytes, f.input.message.value.1, h.sessionId,
          Reverted(f)))
  }

  function DecodeRead(f: Frame, local: u64): Option<MailboxCall>
    requires f.input.ReadInput?
  {
    if f.input.header.None? || f.input.header.value.chainSrc > U64_MAX then None
    else
      var h := f.input.header.value;
      Some(MailboxCall(h.chainSrc, local, h.sender, h.receiver, h.labelBytes, [], h.sessionId, Reverted(f)))
  }

  /** A write counts only when its caller parses too. */
  function VisitNode(f: Frame, mailbox: Address, local: u64): Parsed {
    if f.to != Some(mailbox) then NOTHING
    else match f.input
      case Other => NOTHING
      case WriteInput(_) =>
        var c := DecodeWrite(f, local);
        if f.caller.Some? && c.Some? then Parsed([], [c.value]) else NOTHING
      case ReadInput(_) =>
        var c := DecodeRead(f, local);
        if c.Some? then Parsed([c.value], []) else NOTHING
  }

  // ---------- The recursive walk ----------

  /** Pre-order, cut below the maximal depth. */
  function Walk(f: Frame, depth: nat, mailbox: Address, local: u64): Parsed
    decreases f
  {
    Join(VisitNode(f, mailbox, local),
         if depth >= MAX_TRACE_DEPTH then NOTHING else WalkAll(f.calls, depth + 1, mailbox, local))
  }

  function WalkAll(fs: seq<Frame>, depth: nat, mailbox: Address, local: u64): Parsed
    decreases fs
  {
    if fs == [] then NOTHING else Join(Walk(fs[0], depth, mailbox, local), WalkAll(fs[1..], depth, mailbox, local))
  }

  /** The same without the cut. */
  function FullWalk(f: Frame, mailbox: Address, local: u64): Parsed
    decreases f
  {
    Join(VisitNode(f, mailbox, local), FullWalkAll(f.calls, mailbox, local))
  }

  function FullWalkAll(fs: seq<Frame>, mailbox: Address, local: u64): Parsed
    decreases fs
  {
    if fs == [] then NOTHING else Join(FullWalk(fs[0], mailbox, local), FullWalkAll(fs[1..], mailbox, local))
  }

  // ---------- The walk with an explicit stack ----------

  function Size(f: Frame): nat
    decreases f
  {
    1 + SizeAll(f.calls)
  }

  function SizeAll(fs: seq<Frame>): nat
    decreases fs
  {
    if fs == [] then 0 else Size(fs[0]) + SizeAll(fs[1..])
  }

  function StackSize(stack: seq<(Frame, nat)>): nat {
    if stack == [] then 0 else Size(stack[|stack| - 1].0) + StackSize(stack[..|stack| - 1])
  }

  /** What is still to come from a stack whose top is its last element. */
  function WalkStack(stack: seq<(Frame, nat)>, mailbox: Address, local: u64): Parsed {
    if stack == [] then NOTHING
    else
      var top := stack[|stack| - 1];
      Join(Walk(top.0, top.1, mailbox, local), WalkStack(stack[..|stack| - 1], mailbox, local))
  }

  lemma JoinAssociative(a: Parsed, b: Parsed, c: Parsed)
    ensures Join(Join(a, b), c) == Join(a, Join(b, c))
    ensures Join(NOTHING, a) == a && Join(a, NOTHING) == a
  {
  }

  lemma PushedOne(stack: seq<(Frame, nat)>, f: Frame, depth: nat, mailbox: Address, local: u64)
    ensures StackSize(stack + [(f, depth)]) == Size(f) + StackSize(stack)
    ensures WalkStack(stack + [(f, depth)], mailbox, local)
            == Join(Walk(f, depth, mailbox, local), WalkStack(stack, mailbox, local))
  {
    var s := stack + [(f, depth)];
    assert s[..|s| - 1] == stack;
  }

  method PushReversed(base: seq<(Frame, nat)>, calls: seq<Frame>, depth: nat, ghost mailbox: Address, ghost local: u64)
    returns (stack: seq<(Frame, nat)>)
    ensures StackSize(stack) == SizeAll(calls) + StackSize(base)
    ensures WalkStack(stack, mailbox, local)
            == Join(WalkAll(calls, depth, mailbox, local), WalkStack(base, mailbox, local))
  {
    stack := base;
    var k := |calls|;
    while k > 0
      invariant 0 <= k <= |calls|
      invariant StackSize(stack) == SizeAll(calls[k..]) + StackSize(base)
      invariant WalkStack(stack, mailbox, local)
                == Join(WalkAll(calls[k..], depth, mailbox, local), WalkStack(base, mailbox, local))
    {
      k := k - 1;
      assert calls[k..][0] == calls[k] && calls[k..][1..] == calls[k + 1..];
      PushedOne(stack, calls[k], depth, mailbox, local);
      JoinAssociative(Walk(calls[k], depth, mailbox, local), WalkAll(calls[k + 1..], depth, mailbox, local),
          WalkStack(base, mailbox, local));
      stack := stack + [(calls[k], depth)];
    }
    assert calls[0..] == calls;
  }

  lemma PopOne(state: Parsed, node: Frame, depth: nat, rest: seq<(Frame, nat)>, mailbox: Address, local: u64)
    ensures var below := if depth >= MAX_TRACE_DEPTH then NOTHING else WalkAll(node.calls, depth + 1, mailbox, local);
            Join(state, Join(Walk(node, depth, mailbox, local), WalkStack(rest, mailbox, local)))
            == Join(Join(state, VisitNode(node, mailbox, local)), Join(below, WalkStack(rest, mailbox, local)))
  {
    var below := if depth >= MAX_TRACE_DEPTH then NOTHING else WalkAll(node.calls, depth + 1, mailbox, local);
    var v, r := VisitNode(node, mailbox, local), WalkStack(rest, mailbox, local);
    JoinAssociative(v, below, r);
    JoinAssociative(state, v, Join(below, r));
  }

  /** One turn of the loop: what is found and what is still to come stay the same together. */
  method PopAndVisit(state: Parsed, stack: seq<(Frame, nat)>, mailbox: Address, local: u64)
    returns (state': Parsed, stack': seq<(Frame, nat)>)
    requires stack != []
    ensures StackSize(stack') < StackSize(stack)
    ensures Join(state', WalkStack(stack', mailbox, local)) == Join(state, WalkStack(stack, mailbox, local))
  {
    var node, depth := stack[|stack| - 1].0, stack[|stack| - 1].1;
    stack' := stack[..|stack| - 1];
    assert stack == stack' + [(node, depth)];
    PushedOne(stack', node, depth, mailbox, local);
    PopOne(state, node, depth, stack', mailbox, local);
    JoinAssociative(WalkStack(stack', mailbox, local), NOTHING, NOTHING);
    state' := Join(state, VisitNode(node, mailbox, local));
    if depth < MAX_TRACE_DEPTH {
      stack' := PushReversed(stack', node.calls, depth + 1, mailbox, local);
    }
  }

  /** The loop over an explicit stack terminates and finds the calls of the recursive walk, in its order. */
  method ParseCallTrace(trace: Frame, mailbox: Address, local: u64) returns (state: Parsed)
    ensures state == Walk(trace, 0, mailbox, local)
  {
    state := NOTHING;
    var stack := [(trace, 0)];
    assert stack == [] + [(trace, 0)];
    PushedOne([], trace, 0, mailbox, local);
    JoinAssociative(Walk(trace, 0, mailbox, local), NOTHING, NOTHING);
    while stack != []
      invariant Join(state, WalkStack(stack, mailbox, local)) == Walk(trace, 0, mailbox, local)
      decreases StackSize(stack)
    {
      state, stack := PopAndVisit(state, stack, mailbox, local);
    }
    JoinAssociative(state, NOTHING, NOTHING);
  }

  // ---------- Frames by their path from the root ----------

  predicate ValidPath(f: Frame, p: seq<nat>) {
    p == [] || (p[0] < |f.calls| && ValidPath(f.calls[p[0]], p[1..]))
  }

  function FrameAt(f: Frame, p: seq<nat>): Frame
    requires ValidPath(f, p)
  {
    if p == [] then f else FrameAt(f.calls[p[0]], p[1..])
  }

  lemma PathFromChild(f: Frame, i: nat, p: seq<nat>)
    requires i < |f.calls| && ValidPath(f.calls[i], p)
    ensures ValidPath(f, [i] + p) && FrameAt(f, [i] + p) == FrameAt(f.calls[i], p)
  {
    assert ([i] + p)[1..] == p;
  }

  // ---------- What the cut loses ----------

  /** No frame below the maximal depth holds a mailbox call. */
  ghost predicate QuietBelow(f: Frame, depth: nat, mailbox: Address, local: u64) {
    forall p :: ValidPath(f, p) && depth + |p| > MAX_TRACE_DEPTH ==> VisitNode(FrameAt(f, p), mailbox, local) == NOTHING
  }

  function Seen(f: Frame, depth: nat, mailbox: Address, local: u64): Parsed {
    if depth > MAX_TRACE_DEPTH then NOTHING else Walk(f, depth, mailbox, local)
  }

  function SeenAll(fs: seq<Frame>, depth: nat, mailbox: Address, local: u64): Parsed {
    if depth > MAX_TRACE_DEPTH then NOTHING else WalkAll(fs, depth, mailbox, local)
  }

  predicate NoMoreThan(a: Parsed, b: Parsed) {
    |a.readCalls| <= |b.readCalls| && |a.writeCalls| <= |b.writeCalls|
  }

  lemma JoinEqual(a: Parsed, a': Parsed, b: Parsed, b': Parsed)
    requires NoMoreThan(a, a') && NoMoreThan(b, b')
    ensures NoMoreThan(Join(a, b), Join(a', b'))
    ensures Join(a, b) == Join(a', b') <==> a == a' && b == b'
  {
    var j, j' := Join(a, b), Join(a', b');
    if j == j' {
      assert |a.readCalls| == |a'.readCalls| && |a.writeCalls| == |a'.writeCalls|;
      assert j.readCalls[..|a.readCalls|] == a.readCalls && j'.readCalls[..|a'.readCalls|] == a'.readCalls;
      assert j.readCalls[|a.readCalls|..] == b.readCalls && j'.readCalls[|a'.readCalls|..] == b'.readCalls;
      assert j.writeCalls[..|a.writeCalls|] == a.writeCalls && j'.writeCalls[..|a'.writeCalls|] == a'.writeCalls;
      assert j.writeCalls[|a.writeCalls|..] == b.writeCalls && j'.writeCalls[|a'.writeCalls|..] == b'.writeCalls;
    }
  }

  lemma QuietSplits(f: Frame, depth: nat, mailbox: Address, local: u64)
    ensures QuietBelow(f, depth, mailbox, local) <==>
            (depth > MAX_TRACE_DEPTH ==> VisitNode(f, mailbox, local) == NOTHING)
            && forall i :: 0 <= i < |f.calls| ==> QuietBelow(f.calls[i], depth + 1, mailbox, local)
  {
    if QuietBelow(f, depth, mailbox, local) {
      assert ValidPath(f, []) && FrameAt(f, []) == f;
      forall i, p | 0 <= i < |f.calls| && ValidPath(f.calls[i], p) && depth + 1 + |p| > MAX_TRACE_DEPTH
        ensures VisitNode(FrameAt(f.calls[i], p), mailbox, local) == NOTHING
      {
        PathFromChild(f, i, p);
      }
    }
    if forall i :: 0 <= i < |f.calls| ==> QuietBelow(f.calls[i], depth + 1, mailbox, local) {
      forall p | ValidPath(f, p) && p != [] && depth + |p| > MAX_TRACE_DEPTH
        ensures VisitNode(FrameAt(f, p), mailbox, local) == NOTHING
      {
        var child, q := f.calls[p[0]], p[1..];
        assert QuietBelow(child, depth + 1, mailbox, local) && ValidPath(child, q);
      }
    }
  }

  lemma {:induction false} CutAt(f: Frame, depth: nat, mailbox: Address, local: u64)
    ensures NoMoreThan(Seen(f, depth, mailbox, local), FullWalk(f, mailbox, local))
    ensures Seen(f, depth, mailbox, local) == FullWalk(f, mailbox, local) <==> QuietBelow(f, depth, mailbox, local)
    decreases f, 1
  {
    CutAll(f.calls, depth + 1, mailbox, local);
    QuietSplits(f, depth, mailbox, local);
    var v := VisitNode(f, mailbox, local);
    JoinEqual(if depth > MAX_TRACE_DEPTH then NOTHING else v, v,
              SeenAll(f.calls, depth + 1, mailbox, local), FullWalkAll(f.calls, mailbox, local));
  }

  lemma {:induction false} CutAll(fs: seq<Frame>, depth: nat, mailbox: Address, local: u64)
    ensures NoMoreThan(SeenAll(fs, depth, mailbox, local), FullWalkAll(fs, mailbox, local))
    ensures SeenAll(fs, depth, mailbox, local) == FullWalkAll(fs, mailbox, local) <==>
            forall i :: 0 <= i < |fs| ==> QuietBelow(fs[i], depth, mailbox, local)
    decreases fs, 0
  {
    if fs != [] {
      CutAt(fs[0], depth, mailbox, local);
      CutAll(fs[1..], depth, mailbox, local);
      JoinEqual(Seen(fs[0], depth, mailbox, local), FullWalk(fs[0], mailbox, local),
                SeenAll(fs[1..], depth, mailbox, local), FullWalkAll(fs[1..], mailbox, local));
      assert forall i :: 0 < i < |fs| ==> fs[i] == fs[1..][i - 1];
    }
  }

  /** The truncated walk is the whole pre-order walk exactly when no mailbox call lies deeper than the limit. */
  lemma CutLosesNothingExactlyWhen(trace: Frame, mailbox: Address, local: u64)
    ensures Walk(trace, 0, mailbox, local) == FullWalk(trace, mailbox, local) <==>
            forall p :: ValidPath(trace, p) && |p| > MAX_TRACE_DEPTH ==>
                VisitNode(FrameAt(trace, p), mailbox, local) == NOTHING
  {
    CutAt(trace, 0, mailbox, local);
  }

  // ---------- The verdict ----------

  datatype SimError = TraceError(text: string) | ReadsReverted(count: nat)

  datatype SimulationResult = SimulationResult(
    success: bool, error: Option<SimError>, overrides: Option<StateOverride>,
    dependencies: seq<Dependency>, outbound: seq<Outbound>)

  /** A reverted read is a dependency. */
  function UnmetBy(c: MailboxCall): seq<Dependency> {
    if c.reverted then [Dependency(c.sourceChain, c.destChain, c.sender, c.receiver, c.labelBytes, None, c.sessionId)]
    else []
  }

  function UnmetReads(cs: seq<MailboxCall>): seq<Dependency> {
    if cs == [] then [] else UnmetBy(cs[0]) + UnmetReads(cs[1..])
  }

  function OutboundOf(c: MailboxCall): Outbound {
    Outbound(c.sourceChain, c.destChain, c.sender, c.receiver, c.labelBytes, c.data, c.sessionId)
  }

  function ExtractMailboxData(mailbox: Option<Address>, trace: Frame, local: u64): (seq<Dependency>, seq<Outbound>) {
    if mailbox.None? then ([], [])
    else
      var parsed := Walk(trace, 0, mailbox.value, local);
      (UnmetReads(parsed.readCalls),
          seq(|parsed.writeCalls|, i requires 0 <= i < |parsed.writeCalls| => OutboundOf(parsed.writeCalls[i])))
  }

  /** A failed prestate trace is ignored: the transaction then leaves no overrides behind. */
  function ResultFromTraces(
      mailbox: Option<Address>, trace: Frame, local: u64, prestate: Option<Diff>): SimulationResult {
    var (deps, outbound) := ExtractMailboxData(mailbox, trace, local);
    var success := !Reverted(trace) && deps == [];
    SimulationResult(
      success,
      if trace.error.Text? then Some(TraceError(trace.error.text))
      else if !success then Some(ReadsReverted(|deps|)) else None,
      if prestate.Some? && FromDiff(prestate.value) != map[] then Some(FromDiff(prestate.value)) else None,
      deps, outbound)
  }
}
