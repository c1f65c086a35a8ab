/** A pending cross-chain transaction: votes, decision, dependency bookkeeping and status. */
module Xt {
  import opened Prelude
  import opened Matching
  import opened Fulfilment

  type Id = bytes
  type ChainId = u64
  type Tx = bytes

  /** Key under which an outbound message is sent at most once; the payload is not part of it. */
  datatype SentKey = SentKey(instanceId: bytes, sourceChain: u64, destChain: u64,
                             sender: bytes, receiver: bytes, sessionId: bytes, labelBytes: bytes)

  function SentKeyOf(m: Message): SentKey {
    SentKey(m.instanceId, m.sourceChain, m.destChain, m.sender, m.receiver, m.sessionId, m.labelBytes)
  }

  /**
    `box` holds `pending_mailbox`, `fulfilled_dep_keys` and `fulfilled_deps`.
    Of the timestamps only whether they are set is kept.
   */
  datatype PendingXt = PendingXt(
    id: Id, rawId: bytes, period: u64, sequence: u64,
    rawTxs: map<ChainId, seq<Tx>>,
    simulated: bool, decided: bool, confirmed: bool,
    decision: Option<bool>, voteSent: bool, localVote: Option<bool>, peerVotes: map<ChainId, bool>,
    locked: set<ChainId>, originChain: Option<ChainId>, originSeq: nat,
    box: Box, sentKeys: set<SentKey>,
    dependencies: seq<Dependency>, depKeys: set<DependencyKey>, outbound: seq<Outbound>)

  function NewXt(id: Id, rawId: bytes): PendingXt {
    PendingXt(id, rawId, 0, 0, map[], false, false, false, None, false, None, map[], {}, None, 0,
              Box([], {}, []), {}, [], {}, [])
  }

  function RecordDecision(xt: PendingXt, d: bool): PendingXt {
    xt.(decision := Some(d), decided := true)
  }

  // ---------- Standalone decision ----------

  /** Peer votes that are counted: an entry under the local chain's own id is skipped. */
  function CountedPeers(xt: PendingXt, self: ChainId): set<ChainId> {
    set c | c in xt.peerVotes && c != self
  }

  ghost predicate AbortVote(xt: PendingXt, self: ChainId) {
    xt.localVote == Some(false) || exists c :: c in CountedPeers(xt, self) && !xt.peerVotes[c]
  }

  function Collected(xt: PendingXt, self: ChainId): nat {
    (if xt.localVote.Some? then 1 else 0) + |CountedPeers(xt, self)|
  }

  ghost function Verdict(xt: PendingXt, self: ChainId): Option<bool> {
    if xt.decision.Some? then None
    else if AbortVote(xt, self) then Some(false)
    else if 0 < |xt.rawTxs| <= Collected(xt, self) then Some(true)
    else None
  }

  ghost function Settle(xt: PendingXt, self: ChainId): PendingXt {
    match Verdict(xt, self)
    case None => xt
    case Some(d) => RecordDecision(xt, d)
  }

  /** The peers among `cs` that are counted. */
  ghost function CountedIn(votes: map<ChainId, bool>, self: ChainId, cs: set<ChainId>): set<ChainId> {
    set c | c in cs && c in votes && c != self
  }

  ghost predicate SomeNo(votes: map<ChainId, bool>, cs: set<ChainId>) {
    exists c :: c in cs && c in votes && !votes[c]
  }

  lemma CountStep(votes: map<ChainId, bool>, self: ChainId, cs: set<ChainId>, c: ChainId)
    requires c in votes && c !in cs
    ensures c == self ==> CountedIn(votes, self, cs + {c}) == CountedIn(votes, self, cs)
    ensures c != self ==> CountedIn(votes, self, cs + {c}) == CountedIn(votes, self, cs) + {c}
    ensures c != self ==> |CountedIn(votes, self, cs + {c})| == |CountedIn(votes, self, cs)| + 1
    ensures var next := CountedIn(votes, self, cs + {c});
            SomeNo(votes, next) <==> SomeNo(votes, CountedIn(votes, self, cs)) || (c != self && !votes[c])
  {
    if c == self {
      assert CountedIn(votes, self, cs + {c}) == CountedIn(votes, self, cs);
    } else {
      assert CountedIn(votes, self, cs + {c}) == CountedIn(votes, self, cs) + {c};
    }
  }

  /** Counting loop over the peer votes; an entry under the local chain's own id is skipped. */
  method CountPeerVotes(votes: map<ChainId, bool>, self: ChainId) returns (n: nat, someNo: bool)
    ensures n == |CountedIn(votes, self, votes.Keys)|
    ensures someNo <==> SomeNo(votes, CountedIn(votes, self, votes.Keys))
  {
    n, someNo := 0, false;
    var todo := votes.Keys;
    ghost var done: set<ChainId> := {};
    assert CountedIn(votes, self, done) == {};
    while todo != {}
      invariant todo !! done && todo + done == votes.Keys
      invariant n == |CountedIn(votes, self, done)| && (someNo <==> SomeNo(votes, CountedIn(votes, self, done)))
      decreases |todo|
    {
      var cid :| cid in todo;
      CountStep(votes, self, done, cid);
      todo, done := todo - {cid}, done + {cid};
      if cid == self { continue; }
      n := n + 1;
      if !votes[cid] { someNo := true; }
    }
    assert done == votes.Keys;
  }

  /** Decides on the recorded votes; the vote count and the expected count are returned for logging. */
  method MaybeMakeStandaloneDecision(xt: PendingXt, self: ChainId)
    returns (xt': PendingXt, made: Option<(bool, nat, nat)>)
    ensures xt' == Settle(xt, self)
    ensures made == match Verdict(xt, self)
                    case None => None
                    case Some(d) => Some((d, Collected(xt, self), |xt.rawTxs|))
  {
    if xt.decision.Some? { return xt, None; }
    var expected := |xt.rawTxs|;
    var peers, hasAbortVote := CountPeerVotes(xt.peerVotes, self);
    assert CountedIn(xt.peerVotes, self, xt.peerVotes.Keys) == CountedPeers(xt, self);
    var collected := peers;
    if xt.localVote.Some? {
      collected := collected + 1;
      if !xt.localVote.value { hasAbortVote := true; }
    }
    assert hasAbortVote <==> AbortVote(xt, self);
    if hasAbortVote { return RecordDecision(xt, false), Some((false, collected, expected)); }
    if expected > 0 && collected >= expected { return RecordDecision(xt, true), Some((true, collected, expected)); }
    return xt, None;
  }

  // ---------- Votes ----------

  ghost function PeerVote(xt: PendingXt, self: ChainId, c: ChainId, v: bool): PendingXt {
    if xt.decision.Some? || c in xt.peerVotes then xt
    else Settle(xt.(peerVotes := xt.peerVotes[c := v]), self)
  }

  function CastVote(xt: PendingXt, self: ChainId, v: bool): PendingXt {
    xt.(simulated := true, voteSent := true, localVote := Some(v), locked := xt.locked + {self})
  }

  ghost function SendVote(xt: PendingXt, self: ChainId, v: bool, standalone: bool): PendingXt {
    if xt.localVote.Some? then xt
    else if standalone then Settle(CastVote(xt, self, v), self)
    else CastVote(xt, self, v)
  }

  // ---------- Builder commands ----------

  datatype Command = Release(id: Id, deps: seq<Dependency>) | AbortXt(id: Id)

  predicate HasLocal(xt: PendingXt, self: ChainId) {
    self in xt.rawTxs && xt.rawTxs[self] != []
  }

  function DepsForChain(deps: seq<Dependency>, c: ChainId): seq<Dependency> {
    if deps == [] then []
    else if deps[0].destChain == c then [deps[0]] + DepsForChain(deps[1..], c)
    else DepsForChain(deps[1..], c)
  }

  function LocalCommand(xt: PendingXt, self: ChainId, d: bool): Option<Command> {
    if !HasLocal(xt, self) then None
    else if d then Some(Release(xt.id, DepsForChain(xt.box.fulfilled, self)))
    else Some(AbortXt(xt.id))
  }

  /** The command issued when a handler turns `before` into `after` by deciding it. */
  function CommandOnDecide(before: PendingXt, after: PendingXt, self: ChainId): Option<Command> {
    if before.decision.None? && after.decision.Some? then LocalCommand(after, self, after.decision.value) else None
  }

  // ---------- Simulation results ----------

  function RecordDependencies(xt: PendingXt, deps: seq<Dependency>): PendingXt
    decreases |deps|
  {
    if deps == [] then xt
    else
      var k := KeyOf(deps[0]);
      RecordDependencies(if k in xt.depKeys then xt
                         else xt.(depKeys := xt.depKeys + {k}, dependencies := xt.dependencies + [deps[0]]),
                         deps[1..])
  }

  predicate ContainsMessage(msgs: seq<Outbound>, m: Outbound) {
    exists i :: 0 <= i < |msgs| && OutboundKey(msgs[i]) == OutboundKey(m)
  }

  function RecordOutbound(xt: PendingXt, msgs: seq<Outbound>): PendingXt
    decreases |msgs|
  {
    if msgs == [] then xt
    else
      RecordOutbound(if ContainsMessage(xt.outbound, msgs[0]) then xt
          else xt.(outbound := xt.outbound + [msgs[0]]), msgs[1..])
  }

  function FulfilXt(xt: PendingXt, deps: seq<Dependency>): PendingXt {
    xt.(box := Fulfil(xt.box, deps))
  }

  // ---------- Bookkeeping ----------

  ghost function KeySet(deps: seq<Dependency>): set<DependencyKey> {
    set d | d in deps :: KeyOf(d)
  }

  ghost predicate DistinctKeys(deps: seq<Dependency>) {
    forall i, j :: 0 <= i < j < |deps| ==> KeyOf(deps[i]) != KeyOf(deps[j])
  }

  /** The dedup sets are the keys of their lists, and the lists have no key twice. */
  ghost predicate Deduped(xt: PendingXt) {
    && xt.depKeys == KeySet(xt.dependencies) && DistinctKeys(xt.dependencies)
    && xt.box.keys == KeySet(xt.box.fulfilled) && DistinctKeys(xt.box.fulfilled)
  }

  /** Moreover only discovered keys are fulfilled. */
  ghost predicate Bookkept(xt: PendingXt) {
    Deduped(xt) && xt.box.keys <= xt.depKeys
  }

  /** `y` carries the same books as `x`. */
  ghost predicate SameBooks(x: PendingXt, y: PendingXt) {
    && y.dependencies == x.dependencies && y.depKeys == x.depKeys
    && y.box.keys == x.box.keys && y.box.fulfilled == x.box.fulfilled
  }

  lemma BooksCarryOver(x: PendingXt, y: PendingXt)
    requires Deduped(x) && SameBooks(x, y)
    ensures Deduped(y)
  {
  }

  /** The three vote fields are set together, and so are the decision and its timestamp. */
  ghost predicate VoteFieldsAgree(xt: PendingXt) {
    xt.simulated == xt.voteSent == xt.localVote.Some? && xt.decided == xt.decision.Some?
  }

  lemma KeySetAppend(deps: seq<Dependency>, d: Dependency)
    ensures KeySet(deps + [d]) == KeySet(deps) + {KeyOf(d)}
    ensures DistinctKeys(deps) && KeyOf(d) !in KeySet(deps) ==> DistinctKeys(deps + [d])
  {
    forall i | 0 <= i < |deps| ensures KeyOf(deps[i]) in KeySet(deps) {
      assert deps[i] in deps;
    }
    assert forall e :: e in deps + [d] <==> e in deps || e == d;
  }

  lemma {:induction false} RecordingKeepsBooks(xt: PendingXt, deps: seq<Dependency>)
    requires Deduped(xt)
    ensures Deduped(RecordDependencies(xt, deps))
    ensures RecordDependencies(xt, deps).depKeys == xt.depKeys + KeySet(deps)
    decreases |deps|
  {
    if deps != [] {
      var k := KeyOf(deps[0]);
      var x1 := if k in xt.depKeys then xt
                else xt.(depKeys := xt.depKeys + {k}, dependencies := xt.dependencies + [deps[0]]);
      KeySetAppend(xt.dependencies, deps[0]);
      RecordingKeepsBooks(x1, deps[1..]);
      assert forall e :: e in deps <==> e == deps[0] || e in deps[1..];
    }
  }

  lemma {:induction false} RecordingTouchesNothingElse(xt: PendingXt, deps: seq<Dependency>)
    ensures var x := RecordDependencies(xt, deps); x == xt.(dependencies := x.dependencies, depKeys := x.depKeys)
    decreases |deps|
  {
    if deps != [] {
      var k := KeyOf(deps[0]);
      RecordingTouchesNothingElse(if k in xt.depKeys then xt
                                  else xt.(depKeys := xt.depKeys + {k}, dependencies := xt.dependencies + [deps[0]]),
                                      deps[1..]);
    }
  }

  lemma {:induction false} OutboundTouchesNothingElse(xt: PendingXt, msgs: seq<Outbound>)
    ensures RecordOutbound(xt, msgs) == xt.(outbound := RecordOutbound(xt, msgs).outbound)
    decreases |msgs|
  {
    if msgs != [] {
      OutboundTouchesNothingElse(if ContainsMessage(xt.outbound, msgs[0]) then xt
          else xt.(outbound := xt.outbound + [msgs[0]]), msgs[1..]);
    }
  }

  /** `d` is the first of `deps` with its key. */
  ghost predicate FirstOfKey(deps: seq<Dependency>, d: Dependency) {
    exists j: nat :: j < |deps| && deps[j] == d && forall t :: 0 <= t < j ==> KeyOf(deps[t]) != KeyOf(d)
  }

  lemma FirstOfKeyLater(deps: seq<Dependency>, d: Dependency)
    requires deps != [] && FirstOfKey(deps[1..], d) && KeyOf(d) != KeyOf(deps[0])
    ensures FirstOfKey(deps, d)
  {
    var j: nat :| j < |deps[1..]| && deps[1..][j] == d && forall t :: 0 <= t < j ==> KeyOf(deps[1..][t]) != KeyOf(d);
    forall t | 0 <= t < j + 1 ensures KeyOf(deps[t]) != KeyOf(d) {
      if t > 0 { assert deps[t] == deps[1..][t - 1]; }
    }
    assert deps[j + 1] == d;
  }

  /** What one dependency adds to the record. */
  function RecordOne(xt: PendingXt, d: Dependency): PendingXt {
    if KeyOf(d) in xt.depKeys then xt
    else xt.(depKeys := xt.depKeys + {KeyOf(d)}, dependencies := xt.dependencies + [d])
  }

  /** New to the record: not known before, and the first of its key among those reported. */
  ghost predicate NewlyFound(xt: PendingXt, deps: seq<Dependency>, d: Dependency) {
    KeyOf(d) !in xt.depKeys && FirstOfKey(deps, d)
  }

  lemma NewlyFoundBefore(xt: PendingXt, deps: seq<Dependency>, d: Dependency)
    requires deps != [] && NewlyFound(RecordOne(xt, deps[0]), deps[1..], d)
    ensures NewlyFound(xt, deps, d)
  {
    assert KeyOf(deps[0]) in RecordOne(xt, deps[0]).depKeys;
    FirstOfKeyLater(deps, d);
  }

  lemma KeySetFirst(deps: seq<Dependency>)
    requires deps != []
    ensures KeySet(deps) == {KeyOf(deps[0])} + KeySet(deps[1..])
  {
    assert forall e :: e in deps <==> e == deps[0] || e in deps[1..];
  }

  lemma FirstIsFirst(deps: seq<Dependency>)
    requires deps != []
    ensures FirstOfKey(deps, deps[0])
  {
  }

  /** Recording appends, for each key not known yet, the first dependency that carries it, and nothing else. */
  lemma {:induction false} DependenciesRecorded(xt: PendingXt, deps: seq<Dependency>)
    ensures var x := RecordDependencies(xt, deps);
            && xt.dependencies <= x.dependencies && x.depKeys == xt.depKeys + KeySet(deps)
            && forall i :: |xt.dependencies| <= i < |x.dependencies| ==> NewlyFound(xt, deps, x.dependencies[i])
    decreases |deps|
  {
    if deps != [] {
      var x1 := RecordOne(xt, deps[0]);
      DependenciesRecorded(x1, deps[1..]);
      var x := RecordDependencies(x1, deps[1..]);
      assert x == RecordDependencies(xt, deps);
      KeySetFirst(deps);
      forall i | |xt.dependencies| <= i < |x.dependencies| ensures NewlyFound(xt, deps, x.dependencies[i]) {
        if i < |x1.dependencies| {
          assert x.dependencies[i] == x1.dependencies[i] == deps[0];
          FirstIsFirst(deps);
        } else {
          NewlyFoundBefore(xt, deps, x.dependencies[i]);
        }
      }
    }
  }

  ghost function OutboundKeys(msgs: seq<Outbound>): set<DependencyKey> {
    set m | m in msgs :: OutboundKey(m)
  }

  lemma ContainsIsKey(msgs: seq<Outbound>, m: Outbound)
    ensures ContainsMessage(msgs, m) <==> OutboundKey(m) in OutboundKeys(msgs)
  {
    if OutboundKey(m) in OutboundKeys(msgs) {
      var e :| e in msgs && OutboundKey(e) == OutboundKey(m);
      var i :| 0 <= i < |msgs| && msgs[i] == e;
    }
  }

  function RecordMessage(xt: PendingXt, m: Outbound): PendingXt {
    if ContainsMessage(xt.outbound, m) then xt else xt.(outbound := xt.outbound + [m])
  }

  lemma MessageRecorded(xt: PendingXt, m: Outbound)
    ensures var x := RecordMessage(xt, m);
            && xt.outbound <= x.outbound && OutboundKeys(x.outbound) == OutboundKeys(xt.outbound) + {OutboundKey(m)}
            && forall i :: |xt.outbound| <= i < |x.outbound| ==> NewlyWritten(xt, [m], x.outbound[i])
  {
    ContainsIsKey(xt.outbound, m);
    assert forall e :: e in xt.outbound + [m] <==> e in xt.outbound || e == m;
  }

  ghost predicate NewlyWritten(xt: PendingXt, msgs: seq<Outbound>, m: Outbound) {
    m in msgs && OutboundKey(m) !in OutboundKeys(xt.outbound)
  }

  lemma OutboundKeysFirst(msgs: seq<Outbound>)
    requires msgs != []
    ensures OutboundKeys(msgs) == {OutboundKey(msgs[0])} + OutboundKeys(msgs[1..])
  {
    assert forall e :: e in msgs <==> e == msgs[0] || e in msgs[1..];
  }

  /** Recording appends outbound messages of keys not recorded yet, and in the end every key is there. */
  lemma {:induction false} OutboundRecorded(xt: PendingXt, msgs: seq<Outbound>)
    ensures var x := RecordOutbound(xt, msgs);
            && xt.outbound <= x.outbound && OutboundKeys(x.outbound) == OutboundKeys(xt.outbound) + OutboundKeys(msgs)
            && forall i :: |xt.outbound| <= i < |x.outbound| ==> NewlyWritten(xt, msgs, x.outbound[i])
    decreases |msgs|
  {
    if msgs != [] {
      var x1 := RecordMessage(xt, msgs[0]);
      MessageRecorded(xt, msgs[0]);
      OutboundRecorded(x1, msgs[1..]);
      OutboundKeysFirst(msgs);
      var x := RecordOutbound(x1, msgs[1..]);
      assert x == RecordOutbound(xt, msgs);
      forall i | |xt.outbound| <= i < |x.outbound| ensures NewlyWritten(xt, msgs, x.outbound[i]) {
        if i < |x1.outbound| {
          assert x.outbound[i] == x1.outbound[i];
        } else {
          assert NewlyWritten(x1, msgs[1..], x.outbound[i]);
        }
      }
    }
  }

  /** Two writes of one XT share a place on the wire exactly when all six fields agree; the payload is no part of it. */
  lemma SameWireKeyExactlyWhen(raw: bytes, a: Outbound, b: Outbound)
    ensures SentKeyOf(ToWire(raw, a)) == SentKeyOf(ToWire(raw, b)) <==>
            && a.sourceChain == b.sourceChain && a.destChain == b.destChain && a.sender == b.sender
            && a.receiver == b.receiver && a.sessionId == b.sessionId && a.labelBytes == b.labelBytes
  {
    SessionIdRoundTrip(a.sessionId, []);
    SessionIdRoundTrip(b.sessionId, []);
  }

  lemma {:induction false} FulfilmentKeepsBooks(xt: PendingXt, deps: seq<Dependency>)
    requires Deduped(xt)
    ensures Deduped(FulfilXt(xt, deps))
    ensures FulfilXt(xt, deps).box.keys <= xt.box.keys + KeySet(deps)
    decreases |deps|
  {
    if deps != [] {
      assert deps[0] in deps;
      assert KeyOf(deps[0]) in KeySet(deps);
      var x1 := xt.(box := FulfilOne(xt.box, deps[0]));
      if Serves(xt.box, deps[0]) {
        var e := deps[0].(data := Some(xt.box.pending[FirstMatch(xt.box.pending, deps[0])].payload));
        KeySetAppend(xt.box.fulfilled, e);
      }
      FulfilmentKeepsBooks(x1, deps[1..]);
      assert KeySet(deps[1..]) <= KeySet(deps);
    }
  }

  lemma {:induction false} DistinctKeysCount(deps: seq<Dependency>)
    requires DistinctKeys(deps)
    ensures |KeySet(deps)| == |deps|
  {
    if deps != [] {
      var rest := deps[..|deps| - 1];
      var last := deps[|deps| - 1];
      DistinctKeysCount(rest);
      assert deps == rest + [last];
      KeySetAppend(rest, last);
    }
  }

  lemma SubsetCount<T>(a: set<T>, b: set<T>)
    requires a <= b
    ensures |a| <= |b|
    ensures |a| == |b| ==> a == b
    ensures |a| < |b| ==> exists x :: x in b && x !in a
  {
    assert b == a + (b - a);
    assert |b| == |a| + |b - a|;
    if |a| < |b| {
      assert b - a != {};
      var x :| x in b - a;
    }
  }

  /** Comparing the two list lengths decides whether some discovered dependency is still unfulfilled. */
  lemma LengthsTellUnfulfilled(xt: PendingXt)
    requires Bookkept(xt)
    ensures |xt.box.fulfilled| < |xt.dependencies| <==> exists d :: d in xt.dependencies && KeyOf(d) !in xt.box.keys
  {
    DistinctKeysCount(xt.dependencies);
    DistinctKeysCount(xt.box.fulfilled);
    SubsetCount(xt.box.keys, xt.depKeys);
    if |xt.box.fulfilled| < |xt.dependencies| {
      var k :| k in xt.depKeys && k !in xt.box.keys;
      var d :| d in xt.dependencies && KeyOf(d) == k;
    }
  }

  // ---------- Status ----------

  datatype Status = Pending | Simulating | WaitingCirc | Simulated | Voted | Committed | Aborted

  function DetermineStatus(xt: PendingXt): Status {
    if xt.decision.Some? then
      if !xt.decision.value then Aborted
      else if xt.confirmed then Committed
      else Voted
    else if xt.voteSent then Voted
    else if xt.simulated then
      if xt.dependencies != [] && |xt.box.fulfilled| < |xt.dependencies| then WaitingCirc else Simulated
    else if xt.locked != {} then Simulating
    else Pending
  }
}
