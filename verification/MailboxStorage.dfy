/**
  Fulfilled dependencies written into the storage of the mailbox contract, and
  read back by Solidity's rules for `mapping(bytes32 => bytes)` and
  `mapping(bytes32 => bool)`. Keccak-256 is the function parameter `hash`.
 */
module MailboxStorage {
  import opened Prelude
  import opened Matching
  import opened Overrides
  import opened TraceDiff

  const INBOX_MAPPING_SLOT: u64 := 5

  const CREATED_KEYS_MAPPING_SLOT: u64 := 7

  const ONE: B256 := ToBigEndian(1, 32)

  type Keccak = bytes -> B256

  function Zeros(n: nat): (z: bytes)
    ensures |z| == n
  {
    if n == 0 then [] else Zeros(n - 1) + [0]
  }

  // ---------- Keys and slots ----------

  function Preimage(chain: u64, d: Dependency): (p: bytes)
    ensures |p| == 136 + |d.labelBytes|
  {
    ToBigEndian(d.sourceChain, 32) + ToBigEndian(chain, 32) + d.sender + d.receiver
    + ToBigEndian(d.sessionId, 32) + d.labelBytes
  }

  function MailboxKey(hash: Keccak, chain: u64, d: Dependency): B256 {
    hash(Preimage(chain, d))
  }

  function MappingPreimage(key: B256, slot: u64): bytes {
    key + ToBigEndian(slot, 32)
  }

  function MappingSlot(hash: Keccak, key: B256, slot: u64): B256 {
    hash(MappingPreimage(key, slot))
  }

  function InboxSlot(hash: Keccak, chain: u64, d: Dependency): B256 {
    MappingSlot(hash, MailboxKey(hash, chain, d), INBOX_MAPPING_SLOT)
  }

  function CreatedSlot(hash: Keccak, chain: u64, d: Dependency): B256 {
    MappingSlot(hash, MailboxKey(hash, chain, d), CREATED_KEYS_MAPPING_SLOT)
  }

  lemma EncodingInjective(a: nat, b: nat, k: nat)
    requires a < Pow256(k) && b < Pow256(k) && ToBigEndian(a, k) == ToBigEndian(b, k)
    ensures a == b
  {
    EncodeThenDecodeExact(a, k);
    EncodeThenDecodeExact(b, k);
  }

  lemma {:induction false} PowersGrow(k: nat)
    requires k >= 9
    ensures Pow256(k) > 2 * U64_MAX + 1
  {
    if k == 9 {
      assert Pow256(3) == 0x100_0000;
      assert Pow256(6) == 0x1_0000_0000_0000;
      assert Pow256(9) == 0x100_0000_0000_0000_0000;
    } else {
      PowersGrow(k - 1);
    }
  }

  /** The layout of a mailbox key, byte by byte, as the contract derives it. */
  ghost predicate LaidOut(q: bytes, chain: u64, d: Dependency) {
    && |q| == 136 + |d.labelBytes|
    && FromBigEndian(q[0..32]) == d.sourceChain && FromBigEndian(q[32..64]) == chain
    && q[64..84] == d.sender && q[84..104] == d.receiver
    && FromBigEndian(q[104..136]) == d.sessionId && q[136..] == d.labelBytes
  }

  lemma WordDecodes(w: bytes, n: nat)
    requires |w| == 32 && n < Pow256(32)
    ensures FromBigEndian(w) == n <==> w == ToBigEndian(n, 32)
  {
    EncodeThenDecodeExact(n, 32);
    DecodeThenEncode(w);
  }

  lemma InFront(front: bytes, last: bytes, i: nat, j: nat)
    requires i <= j <= |front|
    ensures (front + last)[i..j] == front[i..j]
  {
  }

  lemma AtTheEnd(front: bytes, last: bytes)
    ensures var p := front + last; p[|front|..] == last && p[|front|..|p|] == last
  {
  }

  lemma PreimageParts(chain: u64, d: Dependency)
    ensures var p := Preimage(chain, d);
            && p[0..32] == ToBigEndian(d.sourceChain, 32) && p[32..64] == ToBigEndian(chain, 32)
            && p[64..84] == d.sender && p[84..104] == d.receiver
            && p[104..136] == ToBigEndian(d.sessionId, 32) && p[136..] == d.labelBytes
  {
    var a, b, e := ToBigEndian(d.sourceChain, 32), ToBigEndian(chain, 32), ToBigEndian(d.sessionId, 32);
    FirstParts(a, b, d.sender, d.receiver);
    var front := a + b + d.sender + d.receiver;
    LastParts(front, e, d.labelBytes, 0, 32);
    LastParts(front, e, d.labelBytes, 32, 64);
    LastParts(front, e, d.labelBytes, 64, 84);
    LastParts(front, e, d.labelBytes, 84, 104);
  }

  lemma FirstParts(a: bytes, b: bytes, c: bytes, d: bytes)
    requires |a| == |b| == 32 && |c| == |d| == 20
    ensures var p := a + b + c + d; p[0..32] == a && p[32..64] == b && p[64..84] == c && p[84..104] == d
  {
    AtTheEnd(a, b);
    AtTheEnd(a + b, c);
    AtTheEnd(a + b + c, d);
    InFront(a, b, 0, 32);
    InFront(a + b, c, 0, 32);
    InFront(a + b, c, 32, 64);
    InFront(a + b + c, d, 0, 32);
    InFront(a + b + c, d, 32, 64);
    InFront(a + b + c, d, 64, 84);
  }

  lemma LastParts(front: bytes, e: bytes, tail: bytes, i: nat, j: nat)
    requires |front| == 104 && |e| == 32 && i <= j <= 104
    ensures var p := front + e + tail; p[i..j] == front[i..j] && p[104..136] == e && p[136..] == tail
  {
    AtTheEnd(front, e);
    AtTheEnd(front + e, tail);
    InFront(front, e, i, j);
    InFront(front + e, tail, i, j);
    InFront(front + e, tail, 104, 136);
  }

  lemma SixParts(q: bytes)
    requires |q| >= 136
    ensures q == q[0..32] + q[32..64] + q[64..84] + q[84..104] + q[104..136] + q[136..]
  {
  }

  /** The preimage is the one byte string with that layout. */
  lemma PreimageIsLaidOut(q: bytes, chain: u64, d: Dependency)
    ensures LaidOut(q, chain, d) <==> q == Preimage(chain, d)
  {
    PowersGrow(32);
    PreimageParts(chain, d);
    if |q| == 136 + |d.labelBytes| {
      WordDecodes(q[0..32], d.sourceChain);
      WordDecodes(q[32..64], chain);
      WordDecodes(q[104..136], d.sessionId);
      SixParts(q);
    }
  }

  /** The preimage of a mailbox key determines all six fields of the dependency. */
  lemma PreimageInjective(chain: u64, d: Dependency, d': Dependency)
    requires d.destChain == chain && d'.destChain == chain
    ensures Preimage(chain, d) == Preimage(chain, d') <==> KeyOf(d) == KeyOf(d')
  {
    PowersGrow(32);
    var p, p' := Preimage(chain, d), Preimage(chain, d');
    if p == p' {
      assert p[..32] == ToBigEndian(d.sourceChain, 32) && p'[..32] == ToBigEndian(d'.sourceChain, 32);
      assert p[64..84] == d.sender && p'[64..84] == d'.sender;
      assert p[84..104] == d.receiver && p'[84..104] == d'.receiver;
      assert p[104..136] == ToBigEndian(d.sessionId, 32) && p'[104..136] == ToBigEndian(d'.sessionId, 32);
      assert p[136..] == d.labelBytes && p'[136..] == d'.labelBytes;
      EncodingInjective(d.sourceChain, d'.sourceChain, 32);
      EncodingInjective(d.sessionId, d'.sessionId, 32);
    }
  }

  // ---------- Writing a byte string ----------

  /** Left-aligned data with twice the length in the last byte; longer data is cut to 31 bytes. */
  function ShortWord(data: bytes): B256 {
    var len := if |data| <= 31 then |data| else 31;
    data[..len] + Zeros(31 - len) + [2 * len]
  }

  function ChunkCount(len: nat): (n: nat)
    ensures 32 * n >= len && 32 * n < len + 32
  {
    (len + 31) / 32
  }

  function ChunkWord(data: bytes, i: nat): B256
    requires i < ChunkCount(|data|)
  {
    var chunk := if 32 * i + 32 <= |data| then data[32 * i..32 * i + 32] else data[32 * i..];
    chunk + Zeros(32 - |chunk|)
  }

  /** The addition wraps around at 2^256: only the low 32 bytes are kept. */
  function ChunkSlot(hash: Keccak, slot: B256, i: nat): B256 {
    ToBigEndian(FromBigEndian(hash(slot)) + i, 32)
  }

  function Chunks(hash: Keccak, slot: B256, data: bytes, n: nat): Slots
    requires n <= ChunkCount(|data|)
  {
    if n == 0 then map[] else Chunks(hash, slot, data, n - 1)[ChunkSlot(hash, slot, n - 1) := ChunkWord(data, n - 1)]
  }

  function HeadWord(len: nat): B256 {
    ToBigEndian(2 * len + 1, 32)
  }

  /** What a byte string at `slot` writes. */
  function BytesSlots(hash: Keccak, slot: B256, data: bytes): Slots {
    if |data| <= 31 then map[slot := ShortWord(data)]
    else map[slot := HeadWord(|data|)] + Chunks(hash, slot, data, ChunkCount(|data|))
  }

  method WriteChunks(hash: Keccak, diff: Slots, slot: B256, data: bytes) returns (r: Slots)
    ensures r == diff + Chunks(hash, slot, data, ChunkCount(|data|))
  {
    r := diff;
    for i := 0 to ChunkCount(|data|)
      invariant r == diff + Chunks(hash, slot, data, i)
    {
      InsertLast(diff, Chunks(hash, slot, data, i), ChunkSlot(hash, slot, i), ChunkWord(data, i));
      r := r[ChunkSlot(hash, slot, i) := ChunkWord(data, i)];
    }
  }

  lemma InsertLast(m: Slots, n: Slots, k: B256, v: B256)
    ensures (m + n)[k := v] == m + n[k := v]
  {
  }

  method ApplyBytes(hash: Keccak, diff: Slots, slot: B256, data: bytes) returns (r: Slots)
    ensures r == diff + BytesSlots(hash, slot, data)
  {
    if |data| <= 31 {
      return diff[slot := ShortWord(data)];
    }
    var head: Slots := diff[slot := HeadWord(|data|)];
    r := WriteChunks(hash, head, slot, data);
    AddAssociative(diff, map[slot := HeadWord(|data|)], Chunks(hash, slot, data, ChunkCount(|data|)));
  }

  lemma AddAssociative(l: Slots, m: Slots, n: Slots)
    ensures (l + m) + n == l + (m + n)
  {
  }

  // ---------- Writing the dependencies ----------

  predicate Applies(chain: u64, d: Dependency) {
    d.destChain == chain && d.data.Some?
  }

  function Written(hash: Keccak, chain: u64, d: Dependency): Slots
    requires Applies(chain, d)
  {
    BytesSlots(hash, InboxSlot(hash, chain, d), d.data.value)[CreatedSlot(hash, chain, d) := ONE]
  }

  function Build(hash: Keccak, chain: u64, deps: seq<Dependency>): Slots {
    if deps == [] then map[]
    else
      var m := Build(hash, chain, deps[..|deps| - 1]);
      var d := deps[|deps| - 1];
      if Applies(chain, d) then m + Written(hash, chain, d) else m
  }

  method ApplyDependency(hash: Keccak, chain: u64, diff: Slots, d: Dependency) returns (r: Slots)
    ensures r == if Applies(chain, d) then diff + Written(hash, chain, d) else diff
  {
    if d.destChain != chain { return diff; }
    if d.data.None? { return diff; }
    var inbox := InboxSlot(hash, chain, d);
    r := ApplyBytes(hash, diff, inbox, d.data.value);
    InsertLast(diff, BytesSlots(hash, inbox, d.data.value), CreatedSlot(hash, chain, d), ONE);
    r := r[CreatedSlot(hash, chain, d) := ONE];
  }

  method BuildMailboxStateOverrides(hash: Keccak, chain: u64, mailbox: Address, deps: seq<Dependency>)
    returns (r: Option<StateOverride>)
    ensures r == if Build(hash, chain, deps) == map[] then None
            else Some(MailboxPatch(mailbox, Build(hash, chain, deps)))
  {
    var diff: Slots := map[];
    for i := 0 to |deps|
      invariant diff == Build(hash, chain, deps[..i])
    {
      diff := ApplyDependency(hash, chain, diff, deps[i]);
      assert deps[..i + 1][..i] == deps[..i];
    }
    assert deps[..|deps|] == deps;
    if diff == map[] { return None; }
    return Some(MailboxPatch(mailbox, diff));
  }

  // ---------- Solidity's reading of a byte string ----------

  /** The first `n` words, one after the other. */
  function Joined(words: nat -> B256, n: nat): (b: bytes)
    ensures |b| == 32 * n
  {
    if n == 0 then [] else Joined(words, n - 1) + words(n - 1)
  }

  /** The slot `i` places after `base`; addition wraps around at 2^256. */
  function PlacesAfter(base: B256, i: nat): B256 {
    ToBigEndian(FromBigEndian(base) + i, 32)
  }

  function ReadLong(hash: Keccak, storage: Slots, slot: B256, len: nat): bytes {
    Joined(i => ReadSlot(storage, PlacesAfter(hash(slot), i)), ChunkCount(len))[..len]
  }

  predicate IsLong(w: B256) {
    w[31] % 2 == 1
  }

  function LongLength(w: B256): nat {
    FromBigEndian(w) / 2
  }

  function ReadShort(w: B256): Option<bytes> {
    if w[31] / 2 <= 31 then Some(w[..w[31] / 2]) else None
  }

  /** The lowest bit of a head word tells the two forms apart; each form refuses lengths of the other. */
  function ReadBytes(hash: Keccak, storage: Slots, slot: B256): Option<bytes> {
    var w := ReadSlot(storage, slot);
    if !IsLong(w) then ReadShort(w)
    else if LongLength(w) < 32 then None
    else Some(ReadLong(hash, storage, slot, LongLength(w)))
  }

  // ---------- One byte string reads back ----------

  ghost predicate InWindow(hash: Keccak, slot: B256, n: nat, k: B256) {
    exists i: nat :: i < n && k == ChunkSlot(hash, slot, i)
  }

  lemma SameRemainder(a: nat, b: nat, m: nat)
    requires m > 0 && a < b && b - a < m
    ensures a % m != b % m
  {
    if a % m == b % m {
      assert a == m * (a / m) + a % m && b == m * (b / m) + b % m;
      Distribute(m, b / m, a / m);
      UniqueRemainder(b - a, m, 0, b - a);
      var q := b / m - a / m;
      if q >= 1 { Distribute(m, q, 1); NonNegative(m, q - 1); } else { Distribute(m, 0, q); NonNegative(m, -q); }
      assert false;
    }
  }

  lemma EncodingsDiffer(a: nat, b: nat, k: nat)
    requires a < b && b - a < Pow256(k)
    ensures ToBigEndian(a, k) != ToBigEndian(b, k)
  {
    EncodeThenDecode(a, k);
    EncodeThenDecode(b, k);
    SameRemainder(a, b, Pow256(k));
  }

  lemma ChunkSlotsDiffer(hash: Keccak, slot: B256, i: nat, j: nat)
    requires i < j <= U64_MAX
    ensures ChunkSlot(hash, slot, i) != ChunkSlot(hash, slot, j)
  {
    PowersGrow(32);
    EncodingsDiffer(FromBigEndian(hash(slot)) + i, FromBigEndian(hash(slot)) + j, 32);
  }

  lemma {:induction false} ChunksAt(hash: Keccak, slot: B256, data: bytes, n: nat, k: B256)
    requires n <= ChunkCount(|data|) && |data| <= U64_MAX
    ensures k in Chunks(hash, slot, data, n) <==> InWindow(hash, slot, n, k)
    ensures forall i: nat :: i < n && k == ChunkSlot(hash, slot, i) ==>
            Chunks(hash, slot, data, n)[k] == ChunkWord(data, i)
  {
    if n > 0 {
      ChunksAt(hash, slot, data, n - 1, k);
      forall i: nat | i < n - 1 ensures ChunkSlot(hash, slot, i) != ChunkSlot(hash, slot, n - 1) {
        ChunkSlotsDiffer(hash, slot, i, n - 1);
      }
      if k == ChunkSlot(hash, slot, n - 1) { assert InWindow(hash, slot, n, k); }
      if InWindow(hash, slot, n, k) && k != ChunkSlot(hash, slot, n - 1) { assert InWindow(hash, slot, n - 1, k); }
    }
  }

  /** The data filled up with zeros to whole chunks. */
  function Padded(data: bytes): (p: bytes)
    ensures |p| == 32 * ChunkCount(|data|)
  {
    data + Zeros(32 * ChunkCount(|data|) - |data|)
  }

  lemma {:induction false} ZerosAt(n: nat, i: nat)
    requires i < n
    ensures Zeros(n)[i] == 0
  {
    if i < n - 1 { ZerosAt(n - 1, i); }
  }

  lemma ChunkOfPadded(data: bytes, i: nat)
    requires i < ChunkCount(|data|)
    ensures ChunkWord(data, i) == Padded(data)[32 * i..32 * i + 32]
  {
    var word, p, pad := ChunkWord(data, i), Padded(data), 32 * ChunkCount(|data|) - |data|;
    forall k | 0 <= k < 32 ensures word[k] == p[32 * i + k] {
      if 32 * i + k >= |data| {
        ZerosAt(32 * i + 32 - |data|, 32 * i + k - |data|);
        ZerosAt(pad, 32 * i + k - |data|);
      }
    }
  }

  /** The storage holds the first `n` chunks of `data`. */
  ghost predicate HoldsChunks(hash: Keccak, storage: Slots, slot: B256, data: bytes, n: nat)
    requires n <= ChunkCount(|data|)
  {
    forall i: nat :: i < n ==> ReadSlot(storage, ChunkSlot(hash, slot, i)) == ChunkWord(data, i)
  }

  lemma Lengthen(p: bytes, i: nat)
    requires 32 * i + 32 <= |p|
    ensures p[..32 * i] + p[32 * i..32 * i + 32] == p[..32 * (i + 1)]
  {
  }

  lemma {:induction false} ChunksConcatenate(words: nat -> B256, data: bytes, n: nat)
    requires n <= ChunkCount(|data|) && forall i: nat :: i < n ==> words(i) == ChunkWord(data, i)
    ensures Joined(words, n) == Padded(data)[..32 * n]
  {
    if n > 0 {
      ChunksConcatenate(words, data, n - 1);
      ChunkOfPadded(data, n - 1);
      Lengthen(Padded(data), n - 1);
      assert words(n - 1) == ChunkWord(data, n - 1);
    }
  }

  lemma LongTail(hash: Keccak, storage: Slots, slot: B256, data: bytes)
    requires HoldsChunks(hash, storage, slot, data, ChunkCount(|data|))
    ensures ReadLong(hash, storage, slot, |data|) == data
  {
    assert forall i: nat :: PlacesAfter(hash(slot), i) == ChunkSlot(hash, slot, i);
    ChunksConcatenate(i => ReadSlot(storage, PlacesAfter(hash(slot), i)), data, ChunkCount(|data|));
    assert Padded(data)[..|data|] == data;
  }

  lemma ShortReadBack(hash: Keccak, storage: Slots, slot: B256, data: bytes)
    requires |data| <= 31 && ReadSlot(storage, slot) == ShortWord(data)
    ensures ReadBytes(hash, storage, slot) == Some(data)
  {
    var w := ShortWord(data);
    assert w[31] == 2 * |data|;
    assert w[..|data|] == data;
  }

  lemma OddByte(n: nat)
    requires n % 2 == 1
    ensures (n % 256) % 2 == 1
  {
    var h, q := n / 2, n / 256;
    assert n == 2 * h + 1 && n % 256 == n - 256 * q;
    assert n % 256 == 2 * (h - 128 * q) + 1;
  }

  lemma OddEnd(n: nat, k: nat)
    requires k > 0 && n % 2 == 1
    ensures ToBigEndian(n, k)[k - 1] % 2 == 1
  {
    assert ToBigEndian(n, k)[k - 1] == n % 256;
    OddByte(n);
  }

  lemma LongHead(len: u64)
    ensures IsLong(HeadWord(len)) && LongLength(HeadWord(len)) == len
  {
    OddEnd(2 * len + 1, 32);
    PowersGrow(32);
    EncodeThenDecodeExact(2 * len + 1, 32);
  }

  lemma LongReadBack(hash: Keccak, storage: Slots, slot: B256, data: bytes)
    requires 31 < |data| <= U64_MAX && ReadSlot(storage, slot) == HeadWord(|data|)
    requires ReadLong(hash, storage, slot, |data|) == data
    ensures ReadBytes(hash, storage, slot) == Some(data)
  {
    LongHead(|data|);
  }

  /** A byte string of any length reads back from the slots it wrote, unless its chunks run over its own head slot. */
  lemma BytesReadBack(hash: Keccak, storage: Slots, slot: B256, data: bytes)
    requires |data| <= U64_MAX
    requires forall k :: k in BytesSlots(hash, slot, data) ==> ReadSlot(storage, k) == BytesSlots(hash, slot, data)[k]
    requires |data| > 31 ==> !InWindow(hash, slot, ChunkCount(|data|), slot)
    ensures ReadBytes(hash, storage, slot) == Some(data)
  {
    var m := BytesSlots(hash, slot, data);
    assert slot in m;
    if |data| <= 31 {
      ShortReadBack(hash, storage, slot, data);
    } else {
      var n := ChunkCount(|data|);
      ChunksAt(hash, slot, data, n, slot);
      forall i: nat | i < n ensures ReadSlot(storage, ChunkSlot(hash, slot, i)) == ChunkWord(data, i) {
        ChunksAt(hash, slot, data, n, ChunkSlot(hash, slot, i));
        assert InWindow(hash, slot, n, ChunkSlot(hash, slot, i));
      }
      LongTail(hash, storage, slot, data);
      LongReadBack(hash, storage, slot, data);
    }
  }

  // ---------- No collisions ----------

  /** The byte strings hashed for one dependency, apart from the base of its chunks. */
  function Hashed(hash: Keccak, chain: u64, d: Dependency): set<bytes> {
    var key := MailboxKey(hash, chain, d);
    {Preimage(chain, d), MappingPreimage(key, INBOX_MAPPING_SLOT), MappingPreimage(key, CREATED_KEYS_MAPPING_SLOT)}
  }

  ghost predicate HashesApart(hash: Keccak, chain: u64, d: Dependency, d': Dependency) {
    forall x, y :: x in Hashed(hash, chain, d) && y in Hashed(hash, chain, d') && hash(x) == hash(y) ==> x == y
  }

  /** The slots of the chunks of `d`, none of them when its data is short. */
  ghost predicate ChunkOf(hash: Keccak, chain: u64, d: Dependency, k: B256)
    requires Applies(chain, d)
  {
    |d.data.value| > 31 && InWindow(hash, InboxSlot(hash, chain, d), ChunkCount(|d.data.value|), k)
  }

  ghost predicate WindowsApart(hash: Keccak, chain: u64, d: Dependency, d': Dependency)
    requires Applies(chain, d) && Applies(chain, d')
  {
    && !ChunkOf(hash, chain, d, InboxSlot(hash, chain, d'))
    && !ChunkOf(hash, chain, d, CreatedSlot(hash, chain, d'))
    && (KeyOf(d) != KeyOf(d') ==> forall k :: !(ChunkOf(hash, chain, d, k) && ChunkOf(hash, chain, d', k)))
  }

  /**
    Keccak has no collision among the finitely many byte strings hashed here, and
    no run of chunk slots meets another slot in use.
   */
  ghost predicate NoCollision(hash: Keccak, chain: u64, deps: seq<Dependency>) {
    forall d, d' :: d in deps && d' in deps && Applies(chain, d) && Applies(chain, d') ==>
      HashesApart(hash, chain, d, d') && WindowsApart(hash, chain, d, d')
  }

  lemma MappingSlotsApart(hash: Keccak, chain: u64, d: Dependency, d': Dependency)
    requires Applies(chain, d) && Applies(chain, d') && HashesApart(hash, chain, d, d')
    ensures InboxSlot(hash, chain, d) != CreatedSlot(hash, chain, d')
    ensures KeyOf(d) != KeyOf(d') ==> InboxSlot(hash, chain, d) != InboxSlot(hash, chain, d')
    ensures KeyOf(d) != KeyOf(d') ==> CreatedSlot(hash, chain, d) != CreatedSlot(hash, chain, d')
  {
    PreimageInjective(chain, d, d');
    var key, key' := MailboxKey(hash, chain, d), MailboxKey(hash, chain, d');
    forall s: u64, s': u64 | MappingPreimage(key, s) == MappingPreimage(key', s') ensures key == key' && s == s' {
      var p, p' := MappingPreimage(key, s), MappingPreimage(key', s');
      assert p[..32] == key && p'[..32] == key' && p[32..] == ToBigEndian(s, 32) && p'[32..] == ToBigEndian(s', 32);
      PowersGrow(32);
      EncodingInjective(s, s', 32);
    }
    assert MappingPreimage(key, INBOX_MAPPING_SLOT) != MappingPreimage(key', CREATED_KEYS_MAPPING_SLOT);
  }

  lemma WrittenKeys(hash: Keccak, chain: u64, d: Dependency, k: B256)
    requires Applies(chain, d) && |d.data.value| <= U64_MAX
    ensures k in Written(hash, chain, d) <==>
            k == InboxSlot(hash, chain, d) || k == CreatedSlot(hash, chain, d) || ChunkOf(hash, chain, d, k)
  {
    ChunksAt(hash, InboxSlot(hash, chain, d), d.data.value, ChunkCount(|d.data.value|), k);
  }

  lemma WritesApart(hash: Keccak, chain: u64, d: Dependency, d': Dependency, k: B256)
    requires Applies(chain, d) && Applies(chain, d') && KeyOf(d) != KeyOf(d')
    requires |d.data.value| <= U64_MAX && |d'.data.value| <= U64_MAX
    requires HashesApart(hash, chain, d, d') && HashesApart(hash, chain, d', d)
    requires WindowsApart(hash, chain, d, d') && WindowsApart(hash, chain, d', d)
    ensures !(k in Written(hash, chain, d) && k in Written(hash, chain, d'))
  {
    WrittenKeys(hash, chain, d, k);
    WrittenKeys(hash, chain, d', k);
    MappingSlotsApart(hash, chain, d, d');
    MappingSlotsApart(hash, chain, d', d);
  }

  // ---------- All dependencies read back ----------

  /** No later dependency for this chain carries the same key. */
  ghost predicate LastOfKey(chain: u64, deps: seq<Dependency>, i: nat) {
    && i < |deps| && Applies(chain, deps[i])
    && forall j :: i < j < |deps| && Applies(chain, deps[j]) ==> KeyOf(deps[j]) != KeyOf(deps[i])
  }

  predicate DataFits(deps: seq<Dependency>) {
    forall d :: d in deps && d.data.Some? ==> |d.data.value| <= U64_MAX
  }

  lemma FrontHolds(hash: Keccak, chain: u64, deps: seq<Dependency>, i: nat)
    requires NoCollision(hash, chain, deps) && DataFits(deps) && LastOfKey(chain, deps, i) && i < |deps| - 1
    ensures var front := deps[..|deps| - 1];
            NoCollision(hash, chain, front) && DataFits(front) && LastOfKey(chain, front, i)
  {
    assert forall d :: d in deps[..|deps| - 1] ==> d in deps;
  }

  lemma NotOverwritten(hash: Keccak, chain: u64, deps: seq<Dependency>, i: nat, k: B256)
    requires NoCollision(hash, chain, deps) && DataFits(deps) && LastOfKey(chain, deps, i) && i < |deps| - 1
    requires k in Written(hash, chain, deps[i]) && Applies(chain, deps[|deps| - 1])
    ensures k !in Written(hash, chain, deps[|deps| - 1])
  {
    var d, e := deps[i], deps[|deps| - 1];
    assert d in deps && e in deps;
    WritesApart(hash, chain, d, e, k);
  }

  lemma {:induction false} LastWriteStands(hash: Keccak, chain: u64, deps: seq<Dependency>, i: nat, k: B256)
    requires NoCollision(hash, chain, deps) && DataFits(deps) && LastOfKey(chain, deps, i)
    requires k in Written(hash, chain, deps[i])
    ensures k in Build(hash, chain, deps) && Build(hash, chain, deps)[k] == Written(hash, chain, deps[i])[k]
  {
    if i < |deps| - 1 {
      FrontHolds(hash, chain, deps, i);
      LastWriteStands(hash, chain, deps[..|deps| - 1], i, k);
      if Applies(chain, deps[|deps| - 1]) { NotOverwritten(hash, chain, deps, i, k); }
    }
  }

  lemma PatchedRead(mailbox: Address, slots: Slots, w: World, k: B256)
    requires mailbox in w
    ensures ReadSlot(Apply(MailboxPatch(mailbox, slots), w)[mailbox].storage, k)
         == if k in slots then slots[k] else ReadSlot(w[mailbox].storage, k)
  {
  }

  lemma ReadBackAtSlots(hash: Keccak, chain: u64, mailbox: Address, deps: seq<Dependency>, i: nat, w: World)
    requires mailbox in w && NoCollision(hash, chain, deps) && DataFits(deps) && LastOfKey(chain, deps, i)
    ensures var storage := Apply(MailboxPatch(mailbox, Build(hash, chain, deps)), w)[mailbox].storage;
            && ReadBytes(hash, storage, InboxSlot(hash, chain, deps[i])) == deps[i].data
            && ReadSlot(storage, CreatedSlot(hash, chain, deps[i])) == ONE
            && forall k :: k !in Build(hash, chain, deps) ==> ReadSlot(storage, k) == ReadSlot(w[mailbox].storage, k)
  {
    var d := deps[i];
    assert d in deps;
    var storage := Apply(MailboxPatch(mailbox, Build(hash, chain, deps)), w)[mailbox].storage;
    var inbox := InboxSlot(hash, chain, d);
    MappingSlotsApart(hash, chain, d, d);
    forall k | k in Written(hash, chain, d) ensures ReadSlot(storage, k) == Written(hash, chain, d)[k] {
      LastWriteStands(hash, chain, deps, i, k);
      PatchedRead(mailbox, Build(hash, chain, deps), w, k);
    }
    forall k | k in BytesSlots(hash, inbox, d.data.value)
      ensures ReadSlot(storage, k) == BytesSlots(hash, inbox, d.data.value)[k]
    {
      ChunksAt(hash, inbox, d.data.value, ChunkCount(|d.data.value|), k);
    }
    BytesReadBack(hash, storage, inbox, d.data.value);
    forall k | k !in Build(hash, chain, deps) ensures ReadSlot(storage, k) == ReadSlot(w[mailbox].storage, k) {
      PatchedRead(mailbox, Build(hash, chain, deps), w, k);
    }
  }

  // ---------- The same, from the layout alone ----------

  /** A dependency for this chain that a message has fulfilled, be it with no bytes at all. */
  predicate Delivered(chain: u64, d: Dependency) {
    d.destChain == chain && d.data.Some?
  }

  /** No later dependency that is delivered to this chain has the same six fields. */
  ghost predicate LastDelivered(chain: u64, deps: seq<Dependency>, i: nat) {
    && i < |deps| && Delivered(chain, deps[i])
    && forall j :: i < j < |deps| && Delivered(chain, deps[j]) ==> !DependencyKeysEqual(deps[j], deps[i])
  }

  /** Where the contract keeps the bytes of the message with key preimage `q`: mapping 5. */
  function BytesAt(hash: Keccak, q: bytes): B256 {
    hash(hash(q) + ToBigEndian(5, 32))
  }

  /** Where it keeps the created flag: mapping 7. */
  function FlagAt(hash: Keccak, q: bytes): B256 {
    hash(hash(q) + ToBigEndian(7, 32))
  }

  /** The byte strings hashed for key preimage `q`, apart from the base of its chunks. */
  function StringsFor(hash: Keccak, q: bytes): set<bytes> {
    {q, hash(q) + ToBigEndian(5, 32), hash(q) + ToBigEndian(7, 32)}
  }

  /** A slot in which data longer than 31 bytes continues. */
  ghost predicate ContinuesAt(hash: Keccak, q: bytes, data: bytes, k: B256) {
    |data| > 31 && exists i: nat :: i < (|data| + 31) / 32 && k == PlacesAfter(hash(BytesAt(hash, q)), i)
  }

  ghost predicate DistinctHashes(hash: Keccak, q: bytes, q': bytes) {
    forall x, y :: x in StringsFor(hash, q) && y in StringsFor(hash, q') && hash(x) == hash(y) ==> x == y
  }

  ghost predicate DistinctSlots(hash: Keccak, q: bytes, data: bytes, q': bytes, data': bytes) {
    && !ContinuesAt(hash, q, data, BytesAt(hash, q')) && !ContinuesAt(hash, q, data, FlagAt(hash, q'))
    && (q != q' ==> forall k :: !(ContinuesAt(hash, q, data, k) && ContinuesAt(hash, q', data', k)))
  }

  /** Keccak has no collision among what is hashed for these dependencies, and no two uses share a slot. */
  ghost predicate CollisionFree(hash: Keccak, chain: u64, deps: seq<Dependency>) {
    forall d, d', q, q' :: d in deps && d' in deps && Delivered(chain, d) && Delivered(chain, d')
                           && LaidOut(q, chain, d) && LaidOut(q', chain, d') ==>
      DistinctHashes(hash, q, q') && DistinctSlots(hash, q, d.data.value, q', d'.data.value)
  }

  /** The slots that a dependency with this key preimage occupies. */
  ghost predicate Occupies(hash: Keccak, q: bytes, data: bytes, k: B256) {
    k == BytesAt(hash, q) || k == FlagAt(hash, q) || ContinuesAt(hash, q, data, k)
  }

  lemma WindowIsContinuation(hash: Keccak, slot: B256, data: bytes, k: B256)
    ensures InWindow(hash, slot, ChunkCount(|data|), k)
            <==> exists i: nat :: i < (|data| + 31) / 32 && k == PlacesAfter(hash(slot), i)
  {
    assert ChunkCount(|data|) == (|data| + 31) / 32;
    assert forall i: nat :: ChunkSlot(hash, slot, i) == PlacesAfter(hash(slot), i);
  }

  lemma SlotsFromLayout(hash: Keccak, chain: u64, d: Dependency, q: bytes)
    requires LaidOut(q, chain, d)
    ensures InboxSlot(hash, chain, d) == BytesAt(hash, q) && CreatedSlot(hash, chain, d) == FlagAt(hash, q)
    ensures Hashed(hash, chain, d) == StringsFor(hash, q)
    ensures Applies(chain, d) ==>
              forall k :: ChunkOf(hash, chain, d, k) <==> ContinuesAt(hash, q, d.data.value, k)
  {
    PreimageIsLaidOut(q, chain, d);
    if Applies(chain, d) {
      forall k ensures ChunkOf(hash, chain, d, k) <==> ContinuesAt(hash, q, d.data.value, k) {
        WindowIsContinuation(hash, BytesAt(hash, q), d.data.value, k);
      }
    }
  }

  lemma PairApart(hash: Keccak, chain: u64, deps: seq<Dependency>, d: Dependency, d': Dependency)
    requires CollisionFree(hash, chain, deps) && d in deps && d' in deps && Applies(chain, d) && Applies(chain, d')
    ensures HashesApart(hash, chain, d, d') && WindowsApart(hash, chain, d, d')
  {
    var q, q' := Preimage(chain, d), Preimage(chain, d');
    PreimageIsLaidOut(q, chain, d);
    PreimageIsLaidOut(q', chain, d');
    SlotsFromLayout(hash, chain, d, q);
    SlotsFromLayout(hash, chain, d', q');
    PreimageInjective(chain, d, d');
    assert DistinctHashes(hash, q, q') && DistinctSlots(hash, q, d.data.value, q', d'.data.value);
  }

  lemma CollisionFreeIsEnough(hash: Keccak, chain: u64, deps: seq<Dependency>)
    requires CollisionFree(hash, chain, deps)
    ensures NoCollision(hash, chain, deps)
  {
    forall d, d' | d in deps && d' in deps && Applies(chain, d) && Applies(chain, d')
      ensures HashesApart(hash, chain, d, d') && WindowsApart(hash, chain, d, d')
    {
      PairApart(hash, chain, deps, d, d');
    }
  }

  lemma LastOfItsKey(chain: u64, deps: seq<Dependency>, i: nat)
    requires LastDelivered(chain, deps, i)
    ensures LastOfKey(chain, deps, i)
  {
    forall j | i < j < |deps| && Applies(chain, deps[j]) ensures KeyOf(deps[j]) != KeyOf(deps[i]) {
      assert Delivered(chain, deps[j]);
    }
  }

  /** No dependency for this chain occupies slot `k`. */
  ghost predicate Unoccupied(hash: Keccak, chain: u64, deps: seq<Dependency>, k: B256) {
    forall d, q :: d in deps && Delivered(chain, d) && LaidOut(q, chain, d) ==> !Occupies(hash, q, d.data.value, k)
  }

  lemma {:induction false} UnoccupiedIsUnwritten(hash: Keccak, chain: u64, deps: seq<Dependency>, k: B256)
    requires DataFits(deps) && Unoccupied(hash, chain, deps, k)
    ensures k !in Build(hash, chain, deps)
  {
    if deps != [] {
      var front, d := deps[..|deps| - 1], deps[|deps| - 1];
      assert d in deps && forall e :: e in front ==> e in deps;
      UnoccupiedIsUnwritten(hash, chain, front, k);
      if Applies(chain, d) {
        assert Delivered(chain, d);
        var q := Preimage(chain, d);
        PreimageIsLaidOut(q, chain, d);
        SlotsFromLayout(hash, chain, d, q);
        WrittenKeys(hash, chain, d, k);
        assert !Occupies(hash, q, d.data.value, k);
      }
    }
  }

  /**
    On any state, the overrides make the mailbox contract read, at the key that any
    byte string with the contract's layout hashes to, exactly the bytes the
    dependency carries, whatever their length, with its created flag set. Slots
    that no dependency for this chain occupies keep their value.
   */
  lemma DependenciesReadBack(
      hash: Keccak, chain: u64, mailbox: Address, deps: seq<Dependency>, i: nat, q: bytes, w: World)
    requires mailbox in w && CollisionFree(hash, chain, deps) && DataFits(deps) && LastDelivered(chain, deps, i)
    requires LaidOut(q, chain, deps[i])
    ensures var storage := Apply(MailboxPatch(mailbox, Build(hash, chain, deps)), w)[mailbox].storage;
            && ReadBytes(hash, storage, hash(hash(q) + ToBigEndian(5, 32))) == deps[i].data
            && FromBigEndian(ReadSlot(storage, hash(hash(q) + ToBigEndian(7, 32)))) == 1
            && forall k :: Unoccupied(hash, chain, deps, k) ==> ReadSlot(storage, k) == ReadSlot(w[mailbox].storage, k)
  {
    CollisionFreeIsEnough(hash, chain, deps);
    LastOfItsKey(chain, deps, i);
    SlotsFromLayout(hash, chain, deps[i], q);
    ReadBackAtSlots(hash, chain, mailbox, deps, i, w);
    PowersGrow(32);
    WordDecodes(ONE, 1);
    forall k | Unoccupied(hash, chain, deps, k) ensures k !in Build(hash, chain, deps) {
      UnoccupiedIsUnwritten(hash, chain, deps, k);
    }
  }
}
