/** What a simulation reports from a call trace: which frames, with which fields, in which order. */
module TraceReports {
  import opened Prelude
  import opened Matching
  import opened Overrides
  import opened TraceDiff
  import opened TraceWalk

  // ---------- What a frame says ----------

  /** The frame is a call of the mailbox that reads the message `d` waits for, and its own frame reverted. */
  ghost predicate AsksFor(f: Frame, mailbox: Address, local: u64, d: Dependency) {
    && f.to == Some(mailbox) && f.input.ReadInput? && f.input.header.Some?
    && f.error.Text? && f.error.text != ""
    && var h := f.input.header.value;
    && h.chainSrc == d.sourceChain && h.sender == d.sender && h.receiver == d.receiver
    && h.sessionId == d.sessionId && h.labelBytes == d.labelBytes
    && d.destChain == local && d.data.None?
  }

  /** The frame is a call of the mailbox, by a caller that parses, that writes the message `o`. */
  ghost predicate Writes(f: Frame, mailbox: Address, local: u64, o: Outbound) {
    && f.to == Some(mailbox) && f.input.WriteInput? && f.input.message.Some? && f.caller.Some?
    && var (h, payload) := f.input.message.value;
    && h.chainDest == o.destChain && h.sender == o.sender && h.receiver == o.receiver
    && h.sessionId == o.sessionId && h.labelBytes == o.labelBytes
    && o.sourceChain == local && payload == o.data
  }

  // ---------- Frames in pre-order ----------

  /** `p` names a frame of the trace within the depth limit. */
  predicate Within(f: Frame, depth: nat, p: seq<nat>) {
    ValidPath(f, p) && depth + |p| <= 1024
  }

  /** Pre-order: a frame comes before its calls, and earlier calls with all below them before later ones. */
  predicate Earlier(p: seq<nat>, q: seq<nat>) {
    q != [] && (p == [] || p[0] < q[0] || (p[0] == q[0] && Earlier(p[1..], q[1..])))
  }

  ghost function Gather<T>(f: Frame, depth: nat, per: Frame -> seq<T>): seq<T>
    decreases f
  {
    per(f) + if depth >= MAX_TRACE_DEPTH then [] else GatherAll(f.calls, depth + 1, per)
  }

  ghost function GatherAll<T>(fs: seq<Frame>, depth: nat, per: Frame -> seq<T>): seq<T>
    decreases fs
  {
    if fs == [] then [] else Gather(fs[0], depth, per) + GatherAll(fs[1..], depth, per)
  }

  ghost predicate Says<T(!new)>(f: Frame, depth: nat, per: Frame -> seq<T>, p: seq<nat>, x: T) {
    Within(f, depth, p) && per(FrameAt(f, p)) == [x]
  }

  ghost predicate Speaks<T(!new)>(f: Frame, depth: nat, per: Frame -> seq<T>, p: seq<nat>) {
    Within(f, depth, p) && per(FrameAt(f, p)) != []
  }

  /** `out` lists what `per` says of the frames at `ps`: these, in pre-order, and no others say anything. */
  ghost predicate Listing<T(!new)>(f: Frame, depth: nat, per: Frame -> seq<T>, ps: seq<seq<nat>>, out: seq<T>) {
    && |ps| == |out|
    && (forall i :: 0 <= i < |ps| ==> Says(f, depth, per, ps[i], out[i]))
    && (forall i, j :: 0 <= i < j < |ps| ==> Earlier(ps[i], ps[j]))
    && (forall p :: Speaks(f, depth, per, p) ==> p in ps)
  }

  /** The same for a list of calls; the first step of a path counts from `k`. */
  ghost predicate ListingAll<T(!new)>(
      fs: seq<Frame>, k: nat, depth: nat, per: Frame -> seq<T>, ps: seq<seq<nat>>, out: seq<T>)
  {
    && |ps| == |out|
    && (forall i :: 0 <= i < |ps| ==> AmongCalls(fs, k, depth, ps[i]) && per(CallAt(fs, k, depth, ps[i])) == [out[i]])
    && (forall i, j :: 0 <= i < j < |ps| ==> Earlier(ps[i], ps[j]))
    && (forall p :: AmongCalls(fs, k, depth, p) && per(CallAt(fs, k, depth, p)) != [] ==> p in ps)
  }

  predicate AmongCalls(fs: seq<Frame>, k: nat, depth: nat, p: seq<nat>) {
    p != [] && k <= p[0] < k + |fs| && Within(fs[p[0] - k], depth, p[1..])
  }

  function CallAt(fs: seq<Frame>, k: nat, depth: nat, p: seq<nat>): Frame
    requires AmongCalls(fs, k, depth, p)
  {
    FrameAt(fs[p[0] - k], p[1..])
  }

  function Below(k: nat, ps: seq<seq<nat>>): seq<seq<nat>> {
    seq(|ps|, i requires 0 <= i < |ps| => [k] + ps[i])
  }

  lemma BelowFirst<T(!new)>(
      fs: seq<Frame>, k: nat, depth: nat, per: Frame -> seq<T>, ps: seq<seq<nat>>, out: seq<T>)
    requires fs != [] && Listing(fs[0], depth, per, ps, out)
    ensures ListingAll(fs[..1], k, depth, per, Below(k, ps), out)
  {
    var qs := Below(k, ps);
    forall i | 0 <= i < |qs| ensures AmongCalls(fs[..1], k, depth, qs[i]) && qs[i][0] == k && qs[i][1..] == ps[i] {
      assert Says(fs[0], depth, per, ps[i], out[i]);
    }
    forall p | AmongCalls(fs[..1], k, depth, p) && per(CallAt(fs[..1], k, depth, p)) != [] ensures p in qs {
      assert Speaks(fs[0], depth, per, p[1..]);
      var j :| 0 <= j < |ps| && ps[j] == p[1..];
      assert p == [k] + p[1..] == qs[j];
    }
  }

  lemma AmongSplit(fs: seq<Frame>, k: nat, depth: nat, p: seq<nat>)
    requires fs != []
    ensures AmongCalls(fs, k, depth, p) <==>
            AmongCalls(fs[..1], k, depth, p) || AmongCalls(fs[1..], k + 1, depth, p)
    ensures AmongCalls(fs[..1], k, depth, p) ==> p[0] == k && CallAt(fs, k, depth, p) == CallAt(fs[..1], k, depth, p)
    ensures AmongCalls(fs[1..], k + 1, depth, p) ==>
              p[0] > k && CallAt(fs, k, depth, p) == CallAt(fs[1..], k + 1, depth, p)
  {
  }

  lemma JoinListings<T(!new)>(
      fs: seq<Frame>, k: nat, depth: nat, per: Frame -> seq<T>,
      ps: seq<seq<nat>>, out: seq<T>, qs: seq<seq<nat>>, more: seq<T>)
    requires fs != [] && ListingAll(fs[..1], k, depth, per, ps, out)
    requires ListingAll(fs[1..], k + 1, depth, per, qs, more)
    ensures ListingAll(fs, k, depth, per, ps + qs, out + more)
  {
    var all := ps + qs;
    forall i | 0 <= i < |all|
      ensures AmongCalls(fs, k, depth, all[i]) && per(CallAt(fs, k, depth, all[i])) == [(out + more)[i]]
      ensures if i < |ps| then all[i][0] == k else all[i][0] > k
    {
      AmongSplit(fs, k, depth, all[i]);
    }
    forall p | AmongCalls(fs, k, depth, p) && per(CallAt(fs, k, depth, p)) != [] ensures p in all {
      AmongSplit(fs, k, depth, p);
    }
  }

  /** The paths of a frame other than its own are those of its calls. */
  lemma CallPaths(f: Frame, depth: nat, p: seq<nat>)
    requires p != []
    ensures Within(f, depth, p) <==> AmongCalls(f.calls, 0, depth + 1, p)
    ensures Within(f, depth, p) ==> FrameAt(f, p) == CallAt(f.calls, 0, depth + 1, p) && depth < 1024
  {
  }

  lemma CallsListed<T(!new)>(f: Frame, depth: nat, per: Frame -> seq<T>, qs: seq<seq<nat>>, more: seq<T>)
    requires if depth >= 1024 then qs == [] && more == [] else ListingAll(f.calls, 0, depth + 1, per, qs, more)
    ensures |qs| == |more|
    ensures forall i :: 0 <= i < |qs| ==> qs[i] != [] && Says(f, depth, per, qs[i], more[i])
    ensures forall i, j :: 0 <= i < j < |qs| ==> Earlier(qs[i], qs[j])
    ensures forall p :: p != [] && Speaks(f, depth, per, p) ==> p in qs
  {
    forall i | 0 <= i < |qs|
      ensures qs[i] != [] && Says(f, depth, per, qs[i], more[i])
    {
      CallPaths(f, depth, qs[i]);
    }
    forall p | p != [] && Speaks(f, depth, per, p) ensures p in qs {
      CallPaths(f, depth, p);
    }
  }

  lemma PrependRoot<T(!new)>(f: Frame, depth: nat, per: Frame -> seq<T>, qs: seq<seq<nat>>, more: seq<T>, x: T)
    requires |qs| == |more| && Says(f, depth, per, [], x)
    requires forall i :: 0 <= i < |qs| ==> qs[i] != [] && Says(f, depth, per, qs[i], more[i])
    requires forall i, j :: 0 <= i < j < |qs| ==> Earlier(qs[i], qs[j])
    requires forall p :: p != [] && Speaks(f, depth, per, p) ==> p in qs
    ensures Listing(f, depth, per, [[]] + qs, [x] + more)
  {
    var ps, out := [[]] + qs, [x] + more;
    forall i | 0 <= i < |ps| ensures Says(f, depth, per, ps[i], out[i]) {
      if i > 0 { assert Says(f, depth, per, qs[i - 1], more[i - 1]); }
    }
    forall i, j | 0 <= i < j < |ps| ensures Earlier(ps[i], ps[j]) {
      if i > 0 { assert Earlier(qs[i - 1], qs[j - 1]); } else { assert qs[j - 1] != []; }
    }
    forall p | Speaks(f, depth, per, p) ensures p in ps {
      if p != [] { assert p in qs; }
    }
  }

  lemma RootListing<T(!new)>(f: Frame, depth: nat, per: Frame -> seq<T>, qs: seq<seq<nat>>, more: seq<T>)
    requires depth <= 1024 && |per(f)| <= 1
    requires if depth >= 1024 then qs == [] && more == [] else ListingAll(f.calls, 0, depth + 1, per, qs, more)
    ensures Listing(f, depth, per, if per(f) == [] then qs else [[]] + qs, per(f) + more)
  {
    CallsListed(f, depth, per, qs, more);
    assert Speaks(f, depth, per, []) <==> per(f) != [];
    if per(f) == [] {
      assert per(f) + more == more;
    } else {
      PrependRoot(f, depth, per, qs, more, per(f)[0]);
      assert per(f) == [per(f)[0]];
    }
  }

  /** The frames of a trace that say something, by their paths. */
  lemma {:induction false} GatherLists<T(!new)>(f: Frame, depth: nat, per: Frame -> seq<T>) returns (ps: seq<seq<nat>>)
    requires depth <= 1024 && forall g :: |per(g)| <= 1
    ensures Listing(f, depth, per, ps, Gather(f, depth, per))
    decreases f, 1
  {
    var qs: seq<seq<nat>> := [];
    if depth < 1024 { qs := GatherAllLists(f.calls, 0, depth + 1, per); }
    RootListing(f, depth, per, qs, if depth < 1024 then GatherAll(f.calls, depth + 1, per) else []);
    ps := if per(f) == [] then qs else [[]] + qs;
  }

  lemma {:induction false} GatherAllLists<T(!new)>(fs: seq<Frame>, k: nat, depth: nat, per: Frame -> seq<T>)
    returns (ps: seq<seq<nat>>)
    requires depth <= 1024 && forall g :: |per(g)| <= 1
    ensures ListingAll(fs, k, depth, per, ps, GatherAll(fs, depth, per))
    decreases fs, 0
  {
    if fs == [] {
      ps := [];
    } else {
      var first := GatherLists(fs[0], depth, per);
      var rest := GatherAllLists(fs[1..], k + 1, depth, per);
      BelowFirst(fs, k, depth, per, first, Gather(fs[0], depth, per));
      JoinListings(fs, k, depth, per, Below(k, first), Gather(fs[0], depth, per), rest, GatherAll(fs[1..], depth, per));
      ps := Below(k, first) + rest;
    }
  }

  // ---------- The walk gathers ----------

  function OutboundsOf(cs: seq<MailboxCall>): seq<Outbound> {
    seq(|cs|, i requires 0 <= i < |cs| => OutboundOf(cs[i]))
  }

  lemma UnmetReadsCons(c: MailboxCall, cs: seq<MailboxCall>)
    ensures UnmetReads([c] + cs) == UnmetBy(c) + UnmetReads(cs)
  {
    assert ([c] + cs)[0] == c && ([c] + cs)[1..] == cs;
  }

  lemma AddAssociative<T>(a: seq<T>, b: seq<T>, c: seq<T>)
    ensures (a + b) + c == a + (b + c)
  {
  }

  lemma {:induction false} UnmetReadsAdd(a: seq<MailboxCall>, b: seq<MailboxCall>)
    ensures UnmetReads(a + b) == UnmetReads(a) + UnmetReads(b)
  {
    if a == [] {
      assert a + b == b;
    } else {
      var c, cs := a[0], a[1..];
      UnmetReadsAdd(cs, b);
      UnmetReadsCons(c, cs);
      UnmetReadsCons(c, cs + b);
      AddAssociative([c], cs, b);
      AddAssociative(UnmetBy(c), UnmetReads(cs), UnmetReads(b));
      assert a == [c] + cs;
    }
  }

  lemma OutboundsAdd(a: seq<MailboxCall>, b: seq<MailboxCall>)
    ensures OutboundsOf(a + b) == OutboundsOf(a) + OutboundsOf(b)
  {
  }

  function ReadsAt(mailbox: Address, local: u64): Frame -> seq<Dependency> {
    (g: Frame) => UnmetReads(VisitNode(g, mailbox, local).readCalls)
  }

  function WritesAt(mailbox: Address, local: u64): Frame -> seq<Outbound> {
    (g: Frame) => OutboundsOf(VisitNode(g, mailbox, local).writeCalls)
  }

  lemma {:induction false} WalkGathers(f: Frame, depth: nat, mailbox: Address, local: u64)
    ensures UnmetReads(Walk(f, depth, mailbox, local).readCalls) == Gather(f, depth, ReadsAt(mailbox, local))
    ensures OutboundsOf(Walk(f, depth, mailbox, local).writeCalls) == Gather(f, depth, WritesAt(mailbox, local))
    decreases f, 1
  {
    var v := VisitNode(f, mailbox, local);
    var below := if depth >= MAX_TRACE_DEPTH then NOTHING else WalkAll(f.calls, depth + 1, mailbox, local);
    if depth < MAX_TRACE_DEPTH { WalkAllGathers(f.calls, depth + 1, mailbox, local); }
    UnmetReadsAdd(v.readCalls, below.readCalls);
    OutboundsAdd(v.writeCalls, below.writeCalls);
  }

  lemma {:induction false} WalkAllGathers(fs: seq<Frame>, depth: nat, mailbox: Address, local: u64)
    ensures UnmetReads(WalkAll(fs, depth, mailbox, local).readCalls) == GatherAll(fs, depth, ReadsAt(mailbox, local))
    ensures OutboundsOf(WalkAll(fs, depth, mailbox, local).writeCalls) == GatherAll(fs, depth, WritesAt(mailbox, local))
    decreases fs, 0
  {
    if fs != [] {
      var first, rest := Walk(fs[0], depth, mailbox, local), WalkAll(fs[1..], depth, mailbox, local);
      WalkGathers(fs[0], depth, mailbox, local);
      WalkAllGathers(fs[1..], depth, mailbox, local);
      UnmetReadsAdd(first.readCalls, rest.readCalls);
      OutboundsAdd(first.writeCalls, rest.writeCalls);
    }
  }

  lemma OneUnmetRead(c: MailboxCall)
    ensures UnmetReads([c]) == if c.reverted
            then [Dependency(c.sourceChain, c.destChain, c.sender, c.receiver, c.labelBytes, None, c.sessionId)] else []
  {
    assert [c][1..] == [] && UnmetReads([c]) == UnmetBy(c) + [];
  }

  /** A frame contributes exactly the dependency it asks for. */
  lemma FrameReads(f: Frame, mailbox: Address, local: u64, d: Dependency)
    ensures |ReadsAt(mailbox, local)(f)| <= 1
    ensures ReadsAt(mailbox, local)(f) == [d] <==> AsksFor(f, mailbox, local, d)
  {
    var cs := VisitNode(f, mailbox, local).readCalls;
    if cs != [] { OneUnmetRead(cs[0]); }
  }

  /** A frame contributes exactly the message it writes. */
  lemma FrameWrites(f: Frame, mailbox: Address, local: u64, o: Outbound)
    ensures |WritesAt(mailbox, local)(f)| <= 1
    ensures WritesAt(mailbox, local)(f) == [o] <==> Writes(f, mailbox, local, o)
  {
    var cs := VisitNode(f, mailbox, local).writeCalls;
    if cs != [] { assert OutboundsOf(cs) == [OutboundOf(cs[0])]; }
  }

  // ---------- The reports ----------

  /** The dependencies, with the frames they come from. */
  ghost predicate DependenciesListed(
      trace: Frame, mailbox: Address, local: u64, ps: seq<seq<nat>>, deps: seq<Dependency>)
  {
    && |ps| == |deps|
    && (forall i :: 0 <= i < |ps| ==>
          Within(trace, 0, ps[i]) && AsksFor(FrameAt(trace, ps[i]), mailbox, local, deps[i]))
    && (forall i, j :: 0 <= i < j < |ps| ==> Earlier(ps[i], ps[j]))
    && (forall p, d :: Within(trace, 0, p) && AsksFor(FrameAt(trace, p), mailbox, local, d) ==> p in ps)
  }

  ghost predicate OutboundListed(
      trace: Frame, mailbox: Address, local: u64, ps: seq<seq<nat>>, outbound: seq<Outbound>)
  {
    && |ps| == |outbound|
    && (forall i :: 0 <= i < |ps| ==>
          Within(trace, 0, ps[i]) && Writes(FrameAt(trace, ps[i]), mailbox, local, outbound[i]))
    && (forall i, j :: 0 <= i < j < |ps| ==> Earlier(ps[i], ps[j]))
    && (forall p, o :: Within(trace, 0, p) && Writes(FrameAt(trace, p), mailbox, local, o) ==> p in ps)
  }

  lemma FramesReadOnce(mailbox: Address, local: u64)
    ensures forall g :: |ReadsAt(mailbox, local)(g)| <= 1
    ensures forall g :: |WritesAt(mailbox, local)(g)| <= 1
  {
    forall g ensures |ReadsAt(mailbox, local)(g)| <= 1 && |WritesAt(mailbox, local)(g)| <= 1 {
      FrameReads(g, mailbox, local, Dependency(0, 0, seq(20, _ => 0), seq(20, _ => 0), [], None, 0));
      FrameWrites(g, mailbox, local, Outbound(0, 0, seq(20, _ => 0), seq(20, _ => 0), [], [], 0));
    }
  }

  /**
    The reported dependencies are exactly the reverted mailbox reads within the
    depth limit, each once, with the fields of its header, in pre-order.
   */
  lemma DependenciesAreReads(mailbox: Address, trace: Frame, local: u64, prestate: Option<Diff>)
    returns (ps: seq<seq<nat>>)
    ensures DependenciesListed(trace, mailbox, local, ps,
                               ResultFromTraces(Some(mailbox), trace, local, prestate).dependencies)
  {
    var per := ReadsAt(mailbox, local);
    WalkGathers(trace, 0, mailbox, local);
    FramesReadOnce(mailbox, local);
    ps := GatherLists(trace, 0, per);
    var deps := ResultFromTraces(Some(mailbox), trace, local, prestate).dependencies;
    assert deps == Gather(trace, 0, per);
    forall i | 0 <= i < |ps|
      ensures Within(trace, 0, ps[i]) && AsksFor(FrameAt(trace, ps[i]), mailbox, local, deps[i])
    {
      assert Says(trace, 0, per, ps[i], deps[i]);
      FrameReads(FrameAt(trace, ps[i]), mailbox, local, deps[i]);
    }
    forall p, d | Within(trace, 0, p) && AsksFor(FrameAt(trace, p), mailbox, local, d) ensures p in ps {
      FrameReads(FrameAt(trace, p), mailbox, local, d);
      assert Speaks(trace, 0, per, p);
    }
  }

  /**
    The outbound messages are exactly the mailbox writes within the depth limit,
    each once, with the fields of its header and its payload, in pre-order.
   */
  lemma OutboundIsWrites(mailbox: Address, trace: Frame, local: u64, prestate: Option<Diff>)
    returns (ps: seq<seq<nat>>)
    ensures OutboundListed(trace, mailbox, local, ps, ResultFromTraces(Some(mailbox), trace, local, prestate).outbound)
  {
    var per := WritesAt(mailbox, local);
    WalkGathers(trace, 0, mailbox, local);
    FramesReadOnce(mailbox, local);
    ps := GatherLists(trace, 0, per);
    var outbound := ResultFromTraces(Some(mailbox), trace, local, prestate).outbound;
    assert outbound == Gather(trace, 0, per);
    forall i | 0 <= i < |ps|
      ensures Within(trace, 0, ps[i]) && Writes(FrameAt(trace, ps[i]), mailbox, local, outbound[i])
    {
      assert Says(trace, 0, per, ps[i], outbound[i]);
      FrameWrites(FrameAt(trace, ps[i]), mailbox, local, outbound[i]);
    }
    forall p, o | Within(trace, 0, p) && Writes(FrameAt(trace, p), mailbox, local, o) ensures p in ps {
      FrameWrites(FrameAt(trace, p), mailbox, local, o);
      assert Speaks(trace, 0, per, p);
    }
  }

  lemma SameReads(f: Frame, mailbox: Address, local: u64, d: Dependency, e: Dependency)
    requires AsksFor(f, mailbox, local, d) && AsksFor(f, mailbox, local, e)
    ensures d == e
  {
  }

  lemma SameWrites(f: Frame, mailbox: Address, local: u64, o: Outbound, e: Outbound)
    requires Writes(f, mailbox, local, o) && Writes(f, mailbox, local, e)
    ensures o == e
  {
  }

  /** A dependency, or an outbound message, is reported if and only if a frame within the depth limit calls for it. */
  lemma ReportedExactlyWhen(
      mailbox: Address, trace: Frame, local: u64, prestate: Option<Diff>, d: Dependency, o: Outbound)
    ensures var r := ResultFromTraces(Some(mailbox), trace, local, prestate);
            && (d in r.dependencies <==>
                exists p :: Within(trace, 0, p) && AsksFor(FrameAt(trace, p), mailbox, local, d))
            && (o in r.outbound <==> exists p :: Within(trace, 0, p) && Writes(FrameAt(trace, p), mailbox, local, o))
  {
    var r := ResultFromTraces(Some(mailbox), trace, local, prestate);
    var ps := DependenciesAreReads(mailbox, trace, local, prestate);
    var qs := OutboundIsWrites(mailbox, trace, local, prestate);
    forall p | Within(trace, 0, p) && AsksFor(FrameAt(trace, p), mailbox, local, d) ensures d in r.dependencies {
      var i :| 0 <= i < |ps| && ps[i] == p;
      SameReads(FrameAt(trace, p), mailbox, local, d, r.dependencies[i]);
    }
    forall p | Within(trace, 0, p) && Writes(FrameAt(trace, p), mailbox, local, o) ensures o in r.outbound {
      var i :| 0 <= i < |qs| && qs[i] == p;
      SameWrites(FrameAt(trace, p), mailbox, local, o, r.outbound[i]);
    }
  }

  // ---------- The verdict ----------

  /** A mailbox read that decodes and whose own frame reverted. */
  predicate UnmetRead(f: Frame, mailbox: Address) {
    && f.to == Some(mailbox) && f.input.ReadInput? && f.input.header.Some?
    && f.input.header.value.chainSrc <= U64_MAX && f.error.Text? && f.error.text != ""
  }

  lemma UnmetReadAsks(f: Frame, mailbox: Address, local: u64)
    ensures UnmetRead(f, mailbox) <==> exists d :: AsksFor(f, mailbox, local, d)
  {
    if UnmetRead(f, mailbox) {
      var h := f.input.header.value;
      assert AsksFor(f, mailbox, local,
                     Dependency(h.chainSrc, local, h.sender, h.receiver, h.labelBytes, None, h.sessionId));
    }
  }

  /**
    A simulation succeeds exactly when the root frame reports no error and no
    decodable mailbox read within the depth limit reverted, even where an
    ancestor frame swallowed the revert.
   */
  lemma SuccessExactlyWhen(mailbox: Address, trace: Frame, local: u64, prestate: Option<Diff>)
    ensures ResultFromTraces(Some(mailbox), trace, local, prestate).success <==>
            && !(trace.error.Text? && trace.error.text != "")
            && forall p :: Within(trace, 0, p) ==> !UnmetRead(FrameAt(trace, p), mailbox)
  {
    var r := ResultFromTraces(Some(mailbox), trace, local, prestate);
    var ps := DependenciesAreReads(mailbox, trace, local, prestate);
    assert r.success <==> !Reverted(trace) && r.dependencies == [];
    if r.dependencies != [] {
      UnmetReadAsks(FrameAt(trace, ps[0]), mailbox, local);
    } else {
      forall p | Within(trace, 0, p) ensures !UnmetRead(FrameAt(trace, p), mailbox) {
        UnmetReadAsks(FrameAt(trace, p), mailbox, local);
      }
    }
  }

  // ---------- The rest of a result ----------

  /** Without a mailbox contract nothing is reported, and only an error of the root frame is a failure. */
  lemma NoMailboxNoReports(trace: Frame, local: u64, prestate: Option<Diff>)
    ensures var r := ResultFromTraces(None, trace, local, prestate);
            r.dependencies == [] && r.outbound == [] && (r.success <==> !(trace.error.Text? && trace.error.text != ""))
  {
  }

  /** An error is given exactly for a failure or an error field that is text; it is that text, or the unmet reads. */
  lemma ErrorExactlyWhen(mailbox: Option<Address>, trace: Frame, local: u64, prestate: Option<Diff>)
    ensures var r := ResultFromTraces(mailbox, trace, local, prestate);
            && (r.error.Some? <==> !r.success || trace.error.Text?)
            && (r.error.Some? ==> r.error.value == if trace.error.Text? then TraceError(trace.error.text)
                                                   else ReadsReverted(|r.dependencies|))
  {
  }

  /**
    The overrides of a result take the state before the traced transaction to the
    state after it exactly when the trace hides no change; without a trace there
    are none.
   */
  lemma ResultReconstructsExactlyWhen(
      mailbox: Option<Address>, trace: Frame, local: u64, d: Diff, w: World, w': World)
    requires Traces(d, w, w')
    ensures var r := ResultFromTraces(mailbox, trace, local, Some(d));
            Apply(if r.overrides.Some? then r.overrides.value else map[], w) == w' <==> !Hidden(d, w, w')
    ensures ResultFromTraces(mailbox, trace, local, None).overrides.None?
  {
    ReconstructsExactlyWhen(d, w, w');
  }
}
