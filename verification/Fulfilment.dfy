/** One pass of dependency fulfilment over the messages waiting for an XT. */
module Fulfilment {
  import opened Prelude
  import opened Matching

  /** The part of a pending XT that a pass changes. */
  datatype Box = Box(pending: seq<Message>, keys: set<DependencyKey>, fulfilled: seq<Dependency>)

  // ---------- The pass on values ----------

  function FirstMatch(pending: seq<Message>, d: Dependency): (i: nat)
    ensures i <= |pending|
    ensures i < |pending| ==> MatchesDependency(pending[i], d)
    ensures forall j :: 0 <= j < i ==> !MatchesDependency(pending[j], d)
  {
    if pending == [] then 0
    else if MatchesDependency(pending[0], d) then 0
    else 1 + FirstMatch(pending[1..], d)
  }

  /** `Vec::swap_remove`: the last element takes the removed one's place. */
  function SwapRemove<T>(s: seq<T>, i: nat): (r: seq<T>)
    requires i < |s|
    ensures |r| == |s| - 1
  {
    s[i := s[|s| - 1]][..|s| - 1]
  }

  predicate Serves(b: Box, d: Dependency) {
    KeyOf(d) !in b.keys && FirstMatch(b.pending, d) < |b.pending|
  }

  function FulfilOne(b: Box, d: Dependency): Box {
    if Serves(b, d) then
      var i := FirstMatch(b.pending, d);
      Box(SwapRemove(b.pending, i), b.keys + {KeyOf(d)}, b.fulfilled + [d.(data := Some(b.pending[i].payload))])
    else b
  }

  function Fulfil(b: Box, deps: seq<Dependency>): Box
    decreases |deps|
  {
    if deps == [] then b else Fulfil(FulfilOne(b, deps[0]), deps[1..])
  }

  /** The messages a pass consumes, in order. */
  function Consumed(b: Box, deps: seq<Dependency>): seq<Message>
    decreases |deps|
  {
    if deps == [] then []
    else
      var rest := Consumed(FulfilOne(b, deps[0]), deps[1..]);
      if Serves(b, deps[0]) then [b.pending[FirstMatch(b.pending, deps[0])]] + rest else rest
  }

  /** The payload each key newly fulfilled by a pass receives. */
  function Won(b: Box, deps: seq<Dependency>): map<DependencyKey, bytes>
    decreases |deps|
  {
    if deps == [] then map[]
    else
      var rest := Won(FulfilOne(b, deps[0]), deps[1..]);
      if Serves(b, deps[0]) then rest[KeyOf(deps[0]) := b.pending[FirstMatch(b.pending, deps[0])].payload] else rest
  }

  // ---------- The pass as the source runs it ----------

  method FulfilFromMailbox(b: Box, deps: seq<Dependency>) returns (r: Box, added: nat)
    ensures r == Fulfil(b, deps)
    ensures added == |Consumed(b, deps)|
  {
    r := b;
    added := 0;
    var t := 0;
    while t < |deps|
      invariant 0 <= t <= |deps|
      invariant Fulfil(r, deps[t..]) == Fulfil(b, deps)
      invariant added + |Consumed(r, deps[t..])| == |Consumed(b, deps)|
    {
      var dep := deps[t];
      assert deps[t..][0] == dep && deps[t..][1..] == deps[t + 1..];
      if KeyOf(dep) !in r.keys {
        var idx := 0;
        while idx < |r.pending| && !MatchesDependency(r.pending[idx], dep)
          invariant 0 <= idx <= |r.pending|
          invariant forall j :: 0 <= j < idx ==> !MatchesDependency(r.pending[j], dep)
        {
          idx := idx + 1;
        }
        assert idx == FirstMatch(r.pending, dep);
        if idx < |r.pending| {
          var msg := r.pending[idx];
          r := Box(SwapRemove(r.pending, idx), r.keys + {KeyOf(dep)}, r.fulfilled + [dep.(data := Some(msg.payload))]);
          added := added + 1;
        }
      }
      t := t + 1;
    }
    assert deps[t..] == [];
  }

  // ---------- Conservation ----------

  lemma SplitAround<T>(s: seq<T>, i: nat)
    requires i < |s| - 1
    ensures s == s[..i] + [s[i]] + (s[i + 1..|s| - 1] + [s[|s| - 1]])
  {
    assert s[i + 1..] == s[i + 1..|s| - 1] + [s[|s| - 1]];
  }

  lemma SwapRemoveBag<T>(s: seq<T>, i: nat)
    requires i < |s|
    ensures multiset(SwapRemove(s, i)) + multiset{s[i]} == multiset(s)
  {
    var last := |s| - 1;
    if i == last {
      assert SwapRemove(s, i) == s[..last] && s == s[..last] + [s[last]];
    } else {
      var left, mid := s[..i], s[i + 1..last];
      assert SwapRemove(s, i) == left + [s[last]] + mid;
      SplitAround(s, i);
    }
  }

  /** The new entry `d` of the fulfilled list is dependency and payload of the message that served it. */
  predicate ServedBy(d: Dependency, m: Message) {
    MatchesDependency(m, d) && d.data == Some(m.payload)
  }

  /** Pending and consumed messages together are the old pending messages. */
  lemma {:induction false} PassConserves(b: Box, deps: seq<Dependency>)
    ensures multiset(b.pending) == multiset(Fulfil(b, deps).pending) + multiset(Consumed(b, deps))
    decreases |deps|
  {
    if deps != [] {
      var b1 := FulfilOne(b, deps[0]);
      PassConserves(b1, deps[1..]);
      if Serves(b, deps[0]) {
        var i := FirstMatch(b.pending, deps[0]);
        SwapRemoveBag(b.pending, i);
        assert multiset(Consumed(b, deps)) == multiset{b.pending[i]} + multiset(Consumed(b1, deps[1..]));
      }
    }
  }

  /** The entries a pass appends, one for each consumed message, in the same order. */
  function Entries(b: Box, deps: seq<Dependency>): seq<Dependency>
    decreases |deps|
  {
    if deps == [] then []
    else
      var rest := Entries(FulfilOne(b, deps[0]), deps[1..]);
      if Serves(b, deps[0]) then [deps[0].(data := Some(b.pending[FirstMatch(b.pending, deps[0])].payload))] + rest
          else rest
  }

  /** Each consumed message accounts for exactly one new entry, which it matches. */
  lemma {:induction false} PassEntries(b: Box, deps: seq<Dependency>)
    ensures Fulfil(b, deps).fulfilled == b.fulfilled + Entries(b, deps)
    ensures |Entries(b, deps)| == |Consumed(b, deps)|
    ensures forall j :: 0 <= j < |Consumed(b, deps)| ==> ServedBy(Entries(b, deps)[j], Consumed(b, deps)[j])
    decreases |deps|
  {
    if deps != [] {
      PassEntries(FulfilOne(b, deps[0]), deps[1..]);
    }
  }

  // ---------- Which keys a pass fulfils ----------

  ghost predicate Waiting(pending: seq<Message>, k: DependencyKey) {
    exists m :: m in pending && MessageKey(m) == Some(k)
  }

  lemma FirstMatchIsWaiting(pending: seq<Message>, d: Dependency)
    ensures FirstMatch(pending, d) < |pending| <==> Waiting(pending, KeyOf(d))
  {
    if Waiting(pending, KeyOf(d)) {
      var m :| m in pending && MessageKey(m) == Some(KeyOf(d));
      MatchIsKeyEquality(m, d, d);
      var j :| 0 <= j < |pending| && pending[j] == m;
    } else if FirstMatch(pending, d) < |pending| {
      MatchIsKeyEquality(pending[FirstMatch(pending, d)], d, d);
    }
  }

  /** Serving one key takes no message of another key away. */
  lemma OtherKeysKeepWaiting(b: Box, d: Dependency, k: DependencyKey)
    requires k != KeyOf(d)
    ensures Waiting(FulfilOne(b, d).pending, k) <==> Waiting(b.pending, k)
  {
    if Serves(b, d) {
      var i := FirstMatch(b.pending, d);
      SwapRemoveBag(b.pending, i);
      MatchIsKeyEquality(b.pending[i], d, d);
      var p, q := multiset(b.pending), multiset(SwapRemove(b.pending, i));
      assert forall m :: m in b.pending <==> m in p;
      assert forall m :: m in SwapRemove(b.pending, i) <==> m in q;
      assert forall m :: m in p <==> m in q || m == b.pending[i];
    }
  }

  /**
    The fulfilled keys after a pass: the old ones and every requested key for
    which some message waits. Neither order plays a part.
   */
  lemma {:induction false} PassKeys(b: Box, deps: seq<Dependency>, k: DependencyKey)
    ensures k in Fulfil(b, deps).keys <==>
            k in b.keys || ((exists d :: d in deps && KeyOf(d) == k) && Waiting(b.pending, k))
    ensures k in Won(b, deps) <==> k !in b.keys && (exists d :: d in deps && KeyOf(d) == k) && Waiting(b.pending, k)
    decreases |deps|
  {
    if deps != [] {
      var d0 := deps[0];
      var b1 := FulfilOne(b, d0);
      PassKeys(b1, deps[1..], k);
      FirstMatchIsWaiting(b.pending, d0);
      assert forall d :: d in deps <==> d == d0 || d in deps[1..];
      if k != KeyOf(d0) { OtherKeysKeepWaiting(b, d0, k); }
    }
  }

  /** A payload won for a key is the payload of some waiting message of that key. */
  lemma {:induction false} WonFromWaiting(b: Box, deps: seq<Dependency>, k: DependencyKey)
    requires k in Won(b, deps)
    ensures exists m :: m in b.pending && MessageKey(m) == Some(k) && m.payload == Won(b, deps)[k]
    decreases |deps|
  {
    var d0 := deps[0];
    var b1 := FulfilOne(b, d0);
    if Serves(b, d0) && k == KeyOf(d0) {
      var m := b.pending[FirstMatch(b.pending, d0)];
      MatchIsKeyEquality(m, d0, d0);
    } else {
      WonFromWaiting(b1, deps[1..], k);
      var m :| m in b1.pending && MessageKey(m) == Some(k) && m.payload == Won(b1, deps[1..])[k];
      if Serves(b, d0) {
        SwapRemoveBag(b.pending, FirstMatch(b.pending, d0));
        assert m in multiset(b1.pending);
        assert m in multiset(b.pending);
      }
    }
  }

  // ---------- Which payload a key receives ----------

  predicate BothMatch(pending: seq<Message>, d: Dependency, m: Message, m': Message) {
    m in pending && m' in pending && MatchesDependency(m, d) && MatchesDependency(m', d)
  }

  /** Every requested, unfulfilled key has waiting messages of one payload only. */
  ghost predicate Unambiguous(b: Box, deps: seq<Dependency>) {
    forall d, m, m' :: d in deps && KeyOf(d) !in b.keys && BothMatch(b.pending, d, m, m') ==> m.payload == m'.payload
  }

  /** No reordering of messages or dependencies changes what each key receives. */
  ghost predicate OrderIndependent(b: Box, deps: seq<Dependency>) {
    forall p, ds :: multiset(p) == multiset(b.pending) && multiset(ds) == multiset(deps) ==>
      Won(b.(pending := p), ds) == Won(b, deps)
  }

  lemma SameMembers<T>(s: seq<T>, t: seq<T>)
    requires multiset(s) == multiset(t)
    ensures forall x :: x in s <==> x in t
  {
    assert forall x :: x in s <==> x in multiset(s);
    assert forall x :: x in t <==> x in multiset(t);
  }

  /**
    The source calls the order of the waiting messages irrelevant. For the
    payloads that holds exactly when no requested key has two waiting messages
    with different payloads.
   */
  lemma PayloadsOrderIndependentExactlyWhen(b: Box, deps: seq<Dependency>)
    ensures OrderIndependent(b, deps) <==> Unambiguous(b, deps)
  {
    if Unambiguous(b, deps) {
      forall p, ds | multiset(p) == multiset(b.pending) && multiset(ds) == multiset(deps)
        ensures Won(b.(pending := p), ds) == Won(b, deps)
      {
        ReorderedSame(b, deps, p, ds);
      }
    } else {
      var d, m, m' :| d in deps && KeyOf(d) !in b.keys && BothMatch(b.pending, d, m, m') && m.payload != m'.payload;
      var p, ds := ToFront(b.pending, m), ToFront(deps, d);
      var p' := ToFront(b.pending, m');
      FirstWins(b.(pending := p), ds);
      FirstWins(b.(pending := p'), ds);
      assert Won(b.(pending := p), ds) != Won(b.(pending := p'), ds);
    }
  }

  lemma ReorderedSame(b: Box, deps: seq<Dependency>, p: seq<Message>, ds: seq<Dependency>)
    requires Unambiguous(b, deps)
    requires multiset(p) == multiset(b.pending) && multiset(ds) == multiset(deps)
    ensures Won(b.(pending := p), ds) == Won(b, deps)
  {
    var b' := b.(pending := p);
    SameMembers(p, b.pending);
    SameMembers(ds, deps);
    forall k ensures k in Won(b', ds) <==> k in Won(b, deps) {
      PassKeys(b', ds, k);
      PassKeys(b, deps, k);
    }
    forall k | k in Won(b, deps) ensures Won(b', ds)[k] == Won(b, deps)[k] {
      PassKeys(b, deps, k);
      WonFromWaiting(b, deps, k);
      WonFromWaiting(b', ds, k);
      var d :| d in deps && KeyOf(d) == k;
      var m :| m in b.pending && MessageKey(m) == Some(k) && m.payload == Won(b, deps)[k];
      var m' :| m' in p && MessageKey(m') == Some(k) && m'.payload == Won(b', ds)[k];
      MatchIsKeyEquality(m, d, d);
      MatchIsKeyEquality(m', d, d);
      assert BothMatch(b.pending, d, m, m');
    }
  }

  ghost function ToFront<T>(s: seq<T>, x: T): (r: seq<T>)
    requires x in s
    ensures multiset(r) == multiset(s) && |r| > 0 && r[0] == x
  {
    var i :| 0 <= i < |s| && s[i] == x;
    assert s == s[..i] + [x] + s[i + 1..];
    [x] + s[..i] + s[i + 1..]
  }

  lemma FirstWins(b: Box, ds: seq<Dependency>)
    requires ds != [] && b.pending != [] && KeyOf(ds[0]) !in b.keys && MatchesDependency(b.pending[0], ds[0])
    ensures KeyOf(ds[0]) in Won(b, ds) && Won(b, ds)[KeyOf(ds[0])] == b.pending[0].payload
  {
  }

  /**
    A concrete pass: with one more key fulfilled before it, the same two messages
    reach their key in the opposite order, because `swap_remove` moved the last
    message forward.
   */
  lemma SwapRemoveReordersPayloads(a: Dependency, d: Dependency, x: Message, y: Message, z: Message)
    requires KeyOf(a) != KeyOf(d) && y.payload != z.payload
    requires MatchesDependency(x, a) && MatchesDependency(y, d) && MatchesDependency(z, d)
    ensures KeyOf(d) in Won(Box([x, y, z], {}, []), [d])
    ensures Won(Box([x, y, z], {}, []), [d])[KeyOf(d)] == y.payload
    ensures KeyOf(d) in Won(Box([x, y, z], {}, []), [a, d])
    ensures Won(Box([x, y, z], {}, []), [a, d])[KeyOf(d)] == z.payload
  {
    MatchIsKeyEquality(x, a, d);
    MatchIsKeyEquality(y, a, d);
    MatchIsKeyEquality(z, a, d);
    var b := Box([x, y, z], {}, []);
    assert FirstMatch([x, y, z], d) == 1;
    assert SwapRemove([x, y, z], 0) == [z, y];
    var b1 := FulfilOne(b, a);
    assert b1.pending == [z, y];
    assert [a, d][1..] == [d];
    FirstWins(b1, [d]);
    assert Won(b, [d]) == Won(FulfilOne(b, d), [])[KeyOf(d) := y.payload];
  }

  /** A write that comes over the wire fulfils a read of its key with the bytes written. */
  lemma WriteReachesRead(raw: bytes, m: Outbound, d: Dependency, b: Box)
    requires b.pending == [ToWire(raw, m)] && OutboundKey(m) == KeyOf(d) && KeyOf(d) !in b.keys
    ensures var r := Fulfil(b, [d]); r.pending == [] && r.fulfilled == b.fulfilled + [d.(data := Some(m.data))]
  {
    WireDeliversToItsKey(raw, m, d);
    assert FirstMatch(b.pending, d) == 0;
    assert Fulfil(b, [d]) == Fulfil(FulfilOne(b, d), [d][1..]) == FulfilOne(b, d);
    assert SwapRemove(b.pending, 0) == [];
  }
}
