/** State overrides: merging them, and what a node does with them. */
module Overrides {
  import opened Prelude
  import opened Matching

  type B256 = b: bytes | |b| == 32 witness seq(32, _ => 0)

  const ZERO: B256 := ToBigEndian(0, 32)

  type Slots = map<B256, B256>

  datatype AccountOverride = AccountOverride(
    balance: Option<nat>, nonce: Option<u64>, code: Option<bytes>, state: Option<Slots>, stateDiff: Option<Slots>)

  type StateOverride = map<Address, AccountOverride>

  // ---------- Meaning ----------

  /** A zero word is the same as no entry, so storage is kept without zeros. */
  datatype Account = Account(balance: nat, nonce: u64, code: bytes, storage: Slots)

  const EMPTY_ACCOUNT: Account := Account(0, 0, [], map[])

  type World = imap<Address, Account>

  function DropZeros(s: Slots): Slots {
    map k | k in s && s[k] != ZERO :: s[k]
  }

  function ReadSlot(storage: Slots, k: B256): B256 {
    if k in storage then storage[k] else ZERO
  }

  ghost predicate Normal(a: Account) {
    forall k :: k in a.storage ==> a.storage[k] != ZERO
  }

  ghost predicate NormalWorld(w: World) {
    forall addr :: addr in w ==> Normal(w[addr])
  }

  lemma ApplyKeepsNormal(o: StateOverride, w: World)
    requires NormalWorld(w)
    ensures NormalWorld(Apply(o, w))
  {
    forall addr | addr in w ensures Normal(ApplyAt(o, addr, w[addr])) {
    }
  }

  /** `state` replaces the storage, `stateDiff` patches it; a node refuses an override that sets both. */
  function ApplyAccount(o: AccountOverride, a: Account): Account {
    Account(if o.balance.Some? then o.balance.value else a.balance,
            if o.nonce.Some? then o.nonce.value else a.nonce,
            if o.code.Some? then o.code.value else a.code,
            if o.state.Some? then DropZeros(o.state.value)
            else if o.stateDiff.Some? then DropZeros(a.storage + o.stateDiff.value)
            else a.storage)
  }

  function ApplyAt(o: StateOverride, addr: Address, a: Account): Account {
    if addr in o then ApplyAccount(o[addr], a) else a
  }

  ghost function Apply(o: StateOverride, w: World): World {
    imap addr | addr in w :: ApplyAt(o, addr, w[addr])
  }

  predicate WellFormedAccount(o: AccountOverride) {
    o.state.None? || o.stateDiff.None?
  }

  /** No account sets both `state` and `stateDiff`. */
  predicate WellFormed(o: StateOverride) {
    forall addr :: addr in o ==> WellFormedAccount(o[addr])
  }

  // ---------- Merging ----------

  function Over<T>(b: Option<T>, o: Option<T>): Option<T> {
    if o.Some? then o else b
  }

  /** The diff a base account already carries. */
  function DiffOf(o: AccountOverride): Slots {
    if o.stateDiff.Some? then o.stateDiff.value else map[]
  }

  function MergedState(b: AccountOverride, o: AccountOverride): Option<Slots> {
    if o.state.Some? then o.state
    else if o.stateDiff.Some? && b.state.Some? then Some(b.state.value + o.stateDiff.value)
    else b.state
  }

  function MergedDiff(b: AccountOverride, o: AccountOverride): Option<Slots> {
    if o.state.Some? then None
    else if o.stateDiff.Some? && b.state.None? then Some(DiffOf(b) + o.stateDiff.value)
    else b.stateDiff
  }

  function MergeAccount(b: AccountOverride, o: AccountOverride): AccountOverride {
    AccountOverride(Over(b.balance, o.balance), Over(b.nonce, o.nonce), Over(b.code, o.code), MergedState(b, o),
        MergedDiff(b, o))
  }

  function Merge(base: StateOverride, overlay: StateOverride): StateOverride {
    map addr | addr in base.Keys + overlay.Keys ::
      if addr !in overlay then base[addr]
      else if addr !in base then overlay[addr]
      else MergeAccount(base[addr], overlay[addr])
  }

  /** The insertion loop over one diff, in whatever order the hash map yields. */
  method InsertAll(slots: Slots, diff: Slots) returns (r: Slots)
    ensures r == slots + diff
  {
    r := slots;
    var todo := diff.Keys;
    InsertEnds(slots, diff);
    while todo != {}
      invariant todo <= diff.Keys
      invariant r == slots + (diff - todo)
      decreases |todo|
    {
      var k :| k in todo;
      InsertStep(slots, diff, todo, k);
      r := r[k := diff[k]];
      todo := todo - {k};
    }
  }

  lemma InsertStep(slots: Slots, diff: Slots, todo: set<B256>, k: B256)
    requires k in diff && k in todo
    ensures slots + (diff - (todo - {k})) == (slots + (diff - todo))[k := diff[k]]
  {
  }

  lemma InsertEnds(slots: Slots, diff: Slots)
    ensures slots + (diff - diff.Keys) == slots && slots + (diff - {}) == slots + diff
  {
    assert diff - {} == diff;
  }

  /** One occupied entry, as the borrowing version updates it. */
  method MergeEntry(b: AccountOverride, o: AccountOverride) returns (r: AccountOverride)
    ensures r == MergeAccount(b, o)
  {
    r := b;
    if o.state.Some? {
      r := r.(state := o.state, stateDiff := None);
    } else if o.stateDiff.Some? {
      if r.state.Some? {
        var s := InsertAll(r.state.value, o.stateDiff.value);
        r := r.(state := Some(s));
      } else {
        var s := InsertAll(DiffOf(r), o.stateDiff.value);
        r := r.(stateDiff := Some(s));
      }
    }
    if o.nonce.Some? { r := r.(nonce := o.nonce); }
    if o.balance.Some? { r := r.(balance := o.balance); }
    if o.code.Some? { r := r.(code := o.code); }
  }

  /** The same entry in the consuming version, which moves a whole diff into an empty place. */
  method MergeEntryOwned(b: AccountOverride, o: AccountOverride) returns (r: AccountOverride)
    ensures r == MergeAccount(b, o)
  {
    r := b;
    if o.state.Some? {
      r := r.(state := o.state, stateDiff := None);
    } else if o.stateDiff.Some? {
      if r.state.Some? {
        var s := InsertAll(r.state.value, o.stateDiff.value);
        r := r.(state := Some(s));
      } else if r.stateDiff.Some? {
        var s := InsertAll(r.stateDiff.value, o.stateDiff.value);
        r := r.(stateDiff := Some(s));
      } else {
        r := r.(stateDiff := o.stateDiff);
        assert map[] + o.stateDiff.value == o.stateDiff.value;
      }
    }
    if o.nonce.Some? { r := r.(nonce := o.nonce); }
    if o.balance.Some? { r := r.(balance := o.balance); }
    if o.code.Some? { r := r.(code := o.code); }
  }

  /** Merging one more account of the overlay, whichever it is. */
  lemma MergeStep(base: StateOverride, overlay: StateOverride, todo: set<Address>, addr: Address)
    requires addr in overlay && addr in todo
    ensures var r := Merge(base, overlay - todo);
            && (addr in r <==> addr in base) && (addr in base ==> r[addr] == base[addr])
            && Merge(base, overlay - (todo - {addr}))
               == r[addr := if addr in base then MergeAccount(base[addr], overlay[addr]) else overlay[addr]]
  {
  }

  lemma MergeEnds(base: StateOverride, overlay: StateOverride)
    ensures Merge(base, overlay - overlay.Keys) == base
    ensures Merge(base, overlay - {}) == Merge(base, overlay)
  {
    assert overlay - {} == overlay;
  }

  /** The result is the same whatever order the overlay's accounts come in. */
  method MergeOverrides(base: StateOverride, overlay: StateOverride) returns (r: StateOverride)
    ensures r == Merge(base, overlay)
  {
    r := base;
    var todo := overlay.Keys;
    MergeEnds(base, overlay);
    while todo != {}
      invariant todo <= overlay.Keys
      invariant r == Merge(base, overlay - todo)
      decreases |todo|
    {
      var addr :| addr in todo;
      MergeStep(base, overlay, todo, addr);
      if addr in r {
        var entry := MergeEntry(r[addr], overlay[addr]);
        r := r[addr := entry];
      } else {
        r := r[addr := overlay[addr]];
      }
      todo := todo - {addr};
    }
  }

  method MergeOverridesOwned(base: StateOverride, overlay: StateOverride) returns (r: StateOverride)
    ensures r == Merge(base, overlay)
  {
    r := base;
    var todo := overlay.Keys;
    MergeEnds(base, overlay);
    while todo != {}
      invariant todo <= overlay.Keys
      invariant r == Merge(base, overlay - todo)
      decreases |todo|
    {
      var addr :| addr in todo;
      MergeStep(base, overlay, todo, addr);
      if addr in r {
        var entry := MergeEntryOwned(r[addr], overlay[addr]);
        r := r[addr := entry];
      } else {
        r := r[addr := overlay[addr]];
      }
      todo := todo - {addr};
    }
  }

  // ---------- Merging is composition ----------

  lemma PatchTwice(s: Slots, d: Slots, e: Slots)
    ensures DropZeros(DropZeros(s + d) + e) == DropZeros(s + (d + e))
  {
    var l, r := DropZeros(DropZeros(s + d) + e), DropZeros(s + (d + e));
    forall k ensures k in l <==> k in r
             ensures k in l ==> l[k] == r[k]
    {
      if k in e {
      } else if k in d {
      }
    }
  }

  lemma MergeAccountComposes(b: AccountOverride, o: AccountOverride, a: Account)
    requires WellFormedAccount(b) && WellFormedAccount(o)
    ensures ApplyAccount(MergeAccount(b, o), a) == ApplyAccount(o, ApplyAccount(b, a))
    ensures WellFormedAccount(MergeAccount(b, o))
  {
    if o.state.None? && o.stateDiff.Some? {
      var e := o.stateDiff.value;
      if b.state.Some? {
        PatchTwice(b.state.value, map[], e);
        assert b.state.value + map[] == b.state.value && map[] + e == e;
      } else {
        var d := DiffOf(b);
        PatchTwice(a.storage, d, e);
        assert map[] + e == e;
      }
    }
  }

  /** Applying a merge is applying the base and then the overlay; merging keeps overrides well-formed. */
  lemma MergeIsComposition(base: StateOverride, overlay: StateOverride, w: World)
    requires WellFormed(base) && WellFormed(overlay)
    ensures Apply(Merge(base, overlay), w) == Apply(overlay, Apply(base, w))
    ensures WellFormed(Merge(base, overlay))
  {
    forall addr | addr in base && addr in overlay
      ensures WellFormedAccount(Merge(base, overlay)[addr])
      ensures addr in w ==>
              ApplyAt(Merge(base, overlay), addr, w[addr]) == ApplyAt(overlay, addr, ApplyAt(base, addr, w[addr]))
    {
      MergeAccountComposes(base[addr], overlay[addr], if addr in w then w[addr] else EMPTY_ACCOUNT);
    }
  }

  lemma MergeAccountAssociative(a: AccountOverride, b: AccountOverride, c: AccountOverride)
    ensures MergeAccount(MergeAccount(a, b), c) == MergeAccount(a, MergeAccount(b, c))
  {
    if c.state.None? && c.stateDiff.Some? && b.state.None? {
      var z := c.stateDiff.value;
      var y := DiffOf(b);
      var x := if a.state.Some? then a.state.value else DiffOf(a);
      assert (x + y) + z == x + (y + z);
      assert x + map[] == x && map[] + z == z;
    }
  }

  /** Merging is associative, for ill-formed overrides too. */
  lemma MergeAssociative(a: StateOverride, b: StateOverride, c: StateOverride)
    ensures Merge(Merge(a, b), c) == Merge(a, Merge(b, c))
  {
    forall addr | addr in a && addr in b && addr in c
      ensures Merge(Merge(a, b), c)[addr] == Merge(a, Merge(b, c))[addr]
    {
      MergeAccountAssociative(a[addr], b[addr], c[addr]);
    }
  }
}
