/** From the diff a prestate tracer reports to overrides that reproduce the post-state. */
module TraceDiff {
  import opened Prelude
  import opened Matching
  import opened Overrides

  datatype AccountState = AccountState(balance: Option<nat>, nonce: Option<u64>, code: Option<bytes>, storage: Slots)

  datatype Diff = Diff(pre: map<Address, AccountState>, post: map<Address, AccountState>)

  const DESTROYED: AccountOverride := AccountOverride(Some(0), Some(0), Some([]), Some(map[]), None)

  // ---------- The conversion ----------

  /** Slots the pre-state names and the post-state does not were cleared: they become explicit zeros. */
  function PatchSlots(pre: Option<AccountState>, post: Slots): Slots {
    Cleared(if pre.Some? then pre.value.storage.Keys else {}, post)
  }

  function Cleared(named: set<B256>, post: Slots): Slots {
    post + map k | k in named && k !in post :: ZERO
  }

  function SurvivorOverride(pre: Option<AccountState>, post: AccountState): AccountOverride {
    var slots := PatchSlots(pre, post.storage);
    AccountOverride(post.balance, post.nonce, post.code, None, if slots == map[] then None else Some(slots))
  }

  function PreOf(d: Diff, addr: Address): Option<AccountState> {
    if addr in d.pre then Some(d.pre[addr]) else None
  }

  predicate Sets(o: AccountOverride) {
    o.balance.Some? || o.nonce.Some? || o.code.Some? || o.stateDiff.Some?
  }

  /** The entries for those survivors among `addrs` whose trace sets something. */
  function Survivors(d: Diff, addrs: set<Address>): StateOverride {
    map addr | addr in addrs && addr in d.post && Sets(SurvivorOverride(PreOf(d, addr), d.post[addr])) ::
      SurvivorOverride(PreOf(d, addr), d.post[addr])
  }

  function FromDiff(d: Diff): StateOverride {
    Survivors(d, d.post.Keys) + Destroyed(d.pre.Keys - d.post.Keys)
  }

  lemma ClearStep(named: set<B256>, post: Slots, slot: B256)
    ensures var r := Cleared(named, post); Cleared(named + {slot}, post) == if slot in r then r else r[slot := ZERO]
  {
  }

  lemma NothingCleared(post: Slots)
    ensures Cleared({}, post) == post
  {
  }

  method ClearMissing(pre: Slots, post: Slots) returns (r: Slots)
    ensures r == Cleared(pre.Keys, post)
  {
    r := post;
    var todo := pre.Keys;
    ghost var done: set<B256> := {};
    NothingCleared(post);
    while todo != {}
      invariant todo + done == pre.Keys && r == Cleared(done, post)
      decreases |todo|
    {
      var slot :| slot in todo;
      ClearStep(done, post, slot);
      if slot !in r { r := r[slot := ZERO]; }
      todo, done := todo - {slot}, done + {slot};
    }
    assert done == pre.Keys;
  }

  method ConvertSurvivor(pre: Option<AccountState>, post: AccountState) returns (r: AccountOverride)
    ensures r == SurvivorOverride(pre, post)
  {
    r := AccountOverride(post.balance, post.nonce, post.code, None, None);
    var slots := post.storage;
    if pre.Some? { slots := ClearMissing(pre.value.storage, slots); }
    assert slots == PatchSlots(pre, post.storage);
    if slots != map[] { r := r.(stateDiff := Some(slots)); }
  }

  ghost predicate Taken(d: Diff, done: set<Address>, pre: map<Address, AccountState>, overrides: StateOverride) {
    pre == d.pre - done && overrides == Survivors(d, done)
  }

  lemma NothingTaken(d: Diff)
    ensures Taken(d, {}, d.pre, map[])
  {
  }

  /** One survivor takes its pre-state out of `pre`; an entry that sets nothing is not kept. */
  method TakeSurvivor(
      d: Diff, ghost done: set<Address>, pre: map<Address, AccountState>, overrides: StateOverride, addr: Address)
    returns (pre': map<Address, AccountState>, overrides': StateOverride)
    requires addr in d.post && addr !in done && Taken(d, done, pre, overrides)
    ensures Taken(d, done + {addr}, pre', overrides')
  {
    SurvivorsStep(d, done, addr);
    var before := if addr in pre then Some(pre[addr]) else None;
    assert before == PreOf(d, addr);
    var account := ConvertSurvivor(before, d.post[addr]);
    pre' := pre - {addr};
    overrides' := if Sets(account) then overrides[addr := account] else overrides;
  }

  method ConvertSurvivors(d: Diff) returns (pre: map<Address, AccountState>, overrides: StateOverride)
    ensures Taken(d, d.post.Keys, pre, overrides)
  {
    pre, overrides := d.pre, map[];
    var todo := d.post.Keys;
    ghost var done: set<Address> := {};
    NothingTaken(d);
    while todo != {}
      invariant todo !! done && todo + done == d.post.Keys
      invariant Taken(d, done, pre, overrides)
      decreases |todo|
    {
      var addr :| addr in todo;
      pre, overrides := TakeSurvivor(d, done, pre, overrides, addr);
      todo, done := todo - {addr}, done + {addr};
    }
    assert done == d.post.Keys;
  }

  lemma SurvivorsStep(d: Diff, addrs: set<Address>, addr: Address)
    requires addr in d.post && addr !in addrs
    ensures var o := SurvivorOverride(PreOf(d, addr), d.post[addr]);
            Survivors(d, addrs + {addr}) == if Sets(o) then Survivors(d, addrs)[addr := o] else Survivors(d, addrs)
  {
  }

  function Destroyed(addrs: set<Address>): StateOverride {
    map addr | addr in addrs :: DESTROYED
  }

  lemma DestroyedStep(survivors: StateOverride, done: set<Address>, addr: Address)
    ensures survivors + Destroyed(done + {addr}) == (survivors + Destroyed(done))[addr := DESTROYED]
  {
  }

  method AddDestroyed(survivors: StateOverride, pre: map<Address, AccountState>) returns (r: StateOverride)
    ensures r == survivors + Destroyed(pre.Keys)
  {
    r := survivors;
    var left := pre.Keys;
    ghost var done: set<Address> := {};
    assert survivors + Destroyed({}) == survivors;
    while left != {}
      invariant left + done == pre.Keys && r == survivors + Destroyed(done)
      decreases |left|
    {
      var addr :| addr in left;
      DestroyedStep(survivors, done, addr);
      r := r[addr := DESTROYED];
      left, done := left - {addr}, done + {addr};
    }
    assert done == pre.Keys;
  }

  /** What survivors leave in `pre` was destroyed. */
  method StateOverridesFromDiff(d: Diff) returns (r: Option<StateOverride>)
    ensures r == if FromDiff(d) == map[] then None else Some(FromDiff(d))
  {
    var pre, survivors := ConvertSurvivors(d);
    var overrides := AddDestroyed(survivors, pre);
    assert pre.Keys == d.pre.Keys - d.post.Keys;
    if overrides == map[] { return None; }
    return Some(overrides);
  }

  lemma FromDiffWellFormed(d: Diff)
    ensures WellFormed(FromDiff(d))
  {
  }

  // ---------- What the tracer reports ----------

  /** The slots that changed, with their old values where those are not zero. */
  function OldSlots(a: Account, b: Account): Slots {
    map k | k in a.storage && ReadSlot(b.storage, k) != a.storage[k] :: a.storage[k]
  }

  /** The slots that changed, with their new values where those are not zero. */
  function NewSlots(a: Account, b: Account): Slots {
    map k | k in b.storage && ReadSlot(a.storage, k) != b.storage[k] :: b.storage[k]
  }

  /**
    A surviving account: changed fields are reported, except that a nonce of zero
    and empty code are left out, as are slots that became zero.
   */
  ghost predicate Survived(pre: Option<AccountState>, post: AccountState, a: Account, b: Account) {
    && post.balance == (if a.balance != b.balance then Some(b.balance) else None)
    && post.nonce == (if a.nonce != b.nonce && b.nonce != 0 then Some(b.nonce) else None)
    && post.code == (if a.code != b.code && b.code != [] then Some(b.code) else None)
    && post.storage == NewSlots(a, b)
    && (pre.Some? ==> pre.value.storage == OldSlots(a, b))
    && (pre.None? ==> a == EMPTY_ACCOUNT)
  }

  ghost predicate TracesAt(d: Diff, addr: Address, a: Account, b: Account) {
    if addr in d.post then Survived(PreOf(d, addr), d.post[addr], a, b)
    else if addr in d.pre then b == EMPTY_ACCOUNT
    else b == a
  }

  /** `d` is the diff-mode trace of a transaction that takes world `w` to `w'`. */
  ghost predicate Traces(d: Diff, w: World, w': World) {
    && w.Keys == w'.Keys && NormalWorld(w) && NormalWorld(w')
    && forall addr :: addr in w ==> TracesAt(d, addr, w[addr], w'[addr])
  }

  /** A surviving account lost its code or had its nonce set back to zero, which a trace does not show. */
  predicate HiddenAt(d: Diff, addr: Address, a: Account, b: Account) {
    addr in d.post && ((a.code != [] && b.code == []) || (a.nonce != 0 && b.nonce == 0))
  }

  ghost predicate Hidden(d: Diff, w: World, w': World) {
    exists addr :: addr in w && addr in w' && HiddenAt(d, addr, w[addr], w'[addr])
  }

  // ---------- Reconstruction ----------

  lemma StorageReconstructed(pre: Option<AccountState>, post: AccountState, a: Account, b: Account)
    requires Normal(a) && Normal(b) && Survived(pre, post, a, b)
    ensures ApplyAccount(SurvivorOverride(pre, post), a).storage == b.storage
  {
    var slots := PatchSlots(pre, post.storage);
    var r := DropZeros(a.storage + slots);
    forall k ensures k in r <==> k in b.storage
             ensures k in r ==> r[k] == b.storage[k]
    {
      if k in b.storage {
        assert k in slots || (k in a.storage && a.storage[k] == b.storage[k]);
      } else if k in a.storage {
        assert pre.Some? && k in OldSlots(a, b);
      }
    }
    assert r == b.storage;
    if slots == map[] { assert a.storage + slots == a.storage && DropZeros(a.storage) == a.storage; }
  }

  lemma AccountReconstructed(d: Diff, addr: Address, a: Account, b: Account)
    requires Normal(a) && Normal(b) && TracesAt(d, addr, a, b)
    ensures ApplyAt(FromDiff(d), addr, a) == b <==> !HiddenAt(d, addr, a, b)
  {
    if addr in d.post {
      var o := SurvivorOverride(PreOf(d, addr), d.post[addr]);
      StorageReconstructed(PreOf(d, addr), d.post[addr], a, b);
      assert ApplyAt(FromDiff(d), addr, a) == ApplyAccount(o, a);
    }
  }

  /**
    Overrides built from a trace take the pre-state to the post-state exactly when
    no surviving account lost its code or had its nonce set back to zero.
   */
  lemma ReconstructsExactlyWhen(d: Diff, w: World, w': World)
    requires Traces(d, w, w')
    ensures Apply(FromDiff(d), w) == w' <==> !Hidden(d, w, w')
  {
    var r := Apply(FromDiff(d), w);
    forall addr | addr in w ensures r[addr] == w'[addr] <==> !HiddenAt(d, addr, w[addr], w'[addr]) {
      AccountReconstructed(d, addr, w[addr], w'[addr]);
    }
    SameWorld(r, w');
  }

  lemma SameWorld(r: World, w: World)
    requires r.Keys == w.Keys
    ensures r == w <==> forall addr :: addr in w ==> r[addr] == w[addr]
  {
  }

  /** The trace of a transaction that clears the code of an account and does nothing else. */
  function ClearedCodeTrace(addr: Address, code: bytes): Diff {
    Diff(map[addr := AccountState(None, None, Some(code), map[])], map[addr := AccountState(None, None, None, map[])])
  }

  lemma ClearedCodeTraced(addr: Address, nonce: u64, code: bytes)
    requires code != []
    ensures Survived(PreOf(ClearedCodeTrace(addr, code), addr), ClearedCodeTrace(addr, code).post[addr],
                     Account(0, nonce, code, map[]), Account(0, nonce, [], map[]))
  {
    var a, b := Account(0, nonce, code, map[]), Account(0, nonce, [], map[]);
    assert OldSlots(a, b) == map[];
    assert NewSlots(a, b) == map[];
  }

  /**
    An account that loses its code, as when a delegation is revoked: the overrides
    of the trace leave the code in place.
   */
  lemma ClearedCodeStays(addr: Address, nonce: u64, code: bytes, w: World, w': World)
    requires code != []
    requires w == imap[addr := Account(0, nonce, code, map[])] && w' == imap[addr := Account(0, nonce, [], map[])]
    ensures Traces(ClearedCodeTrace(addr, code), w, w') && Hidden(ClearedCodeTrace(addr, code), w, w')
    ensures Apply(FromDiff(ClearedCodeTrace(addr, code)), w) != w'
  {
    ClearedCodeTraced(addr, nonce, code);
    var d := ClearedCodeTrace(addr, code);
    assert HiddenAt(d, addr, w[addr], w'[addr]);
    ReconstructsExactlyWhen(d, w, w');
  }

  // ---------- Chaining ----------

  /** The overrides carried into transaction `k` of a slice. */
  function Carried(base: StateOverride, ds: seq<Diff>, k: nat): StateOverride
    requires k <= |ds|
  {
    if k == 0 then base else Merge(Carried(base, ds, k - 1), FromDiff(ds[k - 1]))
  }

  /**
    Without mailbox dependencies, each transaction of a slice is simulated on
    exactly the state its predecessors left.
   */
  lemma {:induction false} ChainSeesPredecessors(base: StateOverride, w: World, ds: seq<Diff>, ws: seq<World>, k: nat)
    requires WellFormed(base) && |ws| == |ds| + 1 && ws[0] == Apply(base, w) && k <= |ds|
    requires forall i :: 0 <= i < |ds| ==> Traces(ds[i], ws[i], ws[i + 1]) && !Hidden(ds[i], ws[i], ws[i + 1])
    ensures Apply(Carried(base, ds, k), w) == ws[k] && WellFormed(Carried(base, ds, k))
  {
    if k > 0 {
      ChainSeesPredecessors(base, w, ds, ws, k - 1);
      FromDiffWellFormed(ds[k - 1]);
      MergeIsComposition(Carried(base, ds, k - 1), FromDiff(ds[k - 1]), w);
      ReconstructsExactlyWhen(ds[k - 1], ws[k - 1], ws[k]);
    }
  }

  /** Overrides for fulfilled dependencies patch the storage of the mailbox contract. */
  function MailboxPatch(mailbox: Address, slots: Slots): StateOverride {
    map[mailbox := StoragePatch(slots)]
  }

  /** The account holds these values in these slots. */
  ghost predicate Holds(a: Account, slots: Slots) {
    forall k :: k in slots ==> ReadSlot(a.storage, k) == slots[k]
  }

  function StoragePatch(slots: Slots): AccountOverride {
    AccountOverride(None, None, None, None, Some(slots))
  }

  /** `more` is the patch of the next transaction, which covers at least the slots of the one before. */
  lemma PatchedSlot(o: AccountOverride, slots: Slots, more: Slots, a: Account, k: B256)
    requires slots.Keys <= more.Keys
    ensures ReadSlot(ApplyAccount(StoragePatch(more), ApplyAccount(o, a)).storage, k)
         == if k in more then more[k] else ReadSlot(ApplyAccount(o, ApplyAccount(StoragePatch(slots), a)).storage, k)
  {
  }

  lemma SameReads(s: Slots, t: Slots)
    requires forall k :: k in s ==> s[k] != ZERO
    requires forall k :: k in t ==> t[k] != ZERO
    requires forall k :: ReadSlot(s, k) == ReadSlot(t, k)
    ensures s == t
  {
    forall k ensures k in s <==> k in t
             ensures k in s ==> s[k] == t[k]
    {
      assert ReadSlot(s, k) == ReadSlot(t, k);
    }
  }

  lemma PatchThenApply(o: AccountOverride, slots: Slots, more: Slots, a: Account, b: Account)
    requires WellFormedAccount(o) && slots.Keys <= more.Keys && Normal(b)
    requires b == ApplyAccount(o, ApplyAccount(StoragePatch(slots), a))
    ensures ApplyAccount(StoragePatch(more), ApplyAccount(o, a)) == b <==> Holds(b, more)
  {
    var c := ApplyAccount(StoragePatch(more), ApplyAccount(o, a));
    forall k ensures ReadSlot(c.storage, k) == if k in more then more[k] else ReadSlot(b.storage, k) {
      PatchedSlot(o, slots, more, a, k);
    }
    if Holds(b, more) { SameReads(c.storage, b.storage); }
  }

  lemma PatchedElsewhere(mailbox: Address, slots: Slots, more: Slots, o: StateOverride, addr: Address, a: Account)
    requires addr != mailbox
    ensures ApplyAt(MailboxPatch(mailbox, more), addr, ApplyAt(o, addr, a))
         == ApplyAt(o, addr, ApplyAt(MailboxPatch(mailbox, slots), addr, a))
  {
  }

  lemma PatchedMailbox(mailbox: Address, slots: Slots, more: Slots, o: StateOverride, a: Account)
    requires WellFormed(o) && slots.Keys <= more.Keys
    requires Normal(ApplyAt(o, mailbox, ApplyAt(MailboxPatch(mailbox, slots), mailbox, a)))
    ensures var b := ApplyAt(o, mailbox, ApplyAt(MailboxPatch(mailbox, slots), mailbox, a));
            ApplyAt(MailboxPatch(mailbox, more), mailbox, ApplyAt(o, mailbox, a)) == b <==> Holds(b, more)
  {
    var b := ApplyAt(o, mailbox, ApplyAt(MailboxPatch(mailbox, slots), mailbox, a));
    var e := if mailbox in o then o[mailbox] else AccountOverride(None, None, None, None, None);
    assert ApplyAt(o, mailbox, a) == ApplyAccount(e, a);
    PatchThenApply(e, slots, more, a, b);
  }

  lemma PatchReapplied(mailbox: Address, slots: Slots, more: Slots, o: StateOverride, s: World, left: World)
    requires WellFormed(o) && mailbox in s && slots.Keys <= more.Keys && NormalWorld(left)
    requires left == Apply(o, Apply(MailboxPatch(mailbox, slots), s))
    ensures Apply(MailboxPatch(mailbox, more), Apply(o, s)) == left <==> Holds(left[mailbox], more)
  {
    var again := Apply(MailboxPatch(mailbox, more), Apply(o, s));
    forall addr | addr in s && addr != mailbox ensures again[addr] == left[addr] {
      PatchedElsewhere(mailbox, slots, more, o, addr, s[addr]);
    }
    assert left[mailbox] == ApplyAt(o, mailbox, ApplyAt(MailboxPatch(mailbox, slots), mailbox, s[mailbox]));
    PatchedMailbox(mailbox, slots, more, o, s[mailbox]);
    SameWorld(again, left);
  }

  /** A change the trace hides shows in the code or the nonce. */
  lemma HiddenShows(d: Diff, addr: Address, a: Account, b: Account)
    requires TracesAt(d, addr, a, b) && HiddenAt(d, addr, a, b)
    ensures var r := ApplyAt(FromDiff(d), addr, a); r.code != b.code || r.nonce != b.nonce
  {
    var o := SurvivorOverride(PreOf(d, addr), d.post[addr]);
    assert ApplyAt(FromDiff(d), addr, a) == ApplyAccount(o, a);
  }

  /** Patches leave code and nonce to the trace. */
  lemma PatchKeepsCode(mailbox: Address, slots: Slots, more: Slots, o: StateOverride, addr: Address, a: Account)
    ensures var x := ApplyAt(MailboxPatch(mailbox, more), addr, ApplyAt(o, addr, a));
            var y := ApplyAt(o, addr, ApplyAt(MailboxPatch(mailbox, slots), addr, a));
            x.code == y.code && x.nonce == y.nonce
  {
  }

  lemma HiddenAfterPatch(mailbox: Address, slots: Slots, more: Slots, d: Diff, s: World, left: World)
    requires Traces(d, Apply(MailboxPatch(mailbox, slots), s), left)
    requires Hidden(d, Apply(MailboxPatch(mailbox, slots), s), left)
    ensures Apply(MailboxPatch(mailbox, more), Apply(FromDiff(d), s)) != left
  {
    var patched := Apply(MailboxPatch(mailbox, slots), s);
    var addr :| addr in patched && addr in left && HiddenAt(d, addr, patched[addr], left[addr]);
    HiddenShows(d, addr, patched[addr], left[addr]);
    PatchKeepsCode(mailbox, slots, more, FromDiff(d), addr, s[addr]);
  }

  /**
    With dependencies, a transaction runs on the carried state patched with them
    and its diff is carried on without the patch; the next transaction runs on
    that, patched again with at least the same slots. It sees the state `left` by
    its predecessor exactly when the trace hides nothing and that state holds the
    values of its patch.
   */
  lemma PatchReappliedExactlyWhen(
      mailbox: Address, slots: Slots, more: Slots, carried: StateOverride, d: Diff, w: World, left: World)
    requires WellFormed(carried) && mailbox in w && slots.Keys <= more.Keys
    requires Traces(d, Apply(MailboxPatch(mailbox, slots), Apply(carried, w)), left)
    ensures Apply(MailboxPatch(mailbox, more), Apply(Merge(carried, FromDiff(d)), w)) == left <==>
            && !Hidden(d, Apply(MailboxPatch(mailbox, slots), Apply(carried, w)), left)
            && Holds(left[mailbox], more)
  {
    var patched := Apply(MailboxPatch(mailbox, slots), Apply(carried, w));
    FromDiffWellFormed(d);
    MergeIsComposition(carried, FromDiff(d), w);
    ReconstructsExactlyWhen(d, patched, left);
    if Hidden(d, patched, left) {
      HiddenAfterPatch(mailbox, slots, more, d, Apply(carried, w), left);
    } else {
      PatchReapplied(mailbox, slots, more, FromDiff(d), Apply(carried, w), left);
    }
  }
}
