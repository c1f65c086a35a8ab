/** Small shared vocabulary: option and result types, bytes, machine words. */
module Prelude {

  datatype Option<+T> = None | Some(value: T)

  datatype Result<+T, +E> = Ok(value: T) | Err(error: E)

  type byte = x: int | 0 <= x < 256

  type bytes = seq<byte>

  const U64_MAX: int := 0xFFFF_FFFF_FFFF_FFFF

  type u64 = x: int | 0 <= x <= U64_MAX

  /** Rust's `u64::saturating_add`. */
  function SaturatingAdd(a: u64, b: nat): u64 {
    if a + b <= U64_MAX then a + b else U64_MAX
  }

  // ---------- Big-endian words ----------

  function Pow256(k: nat): (p: nat)
    ensures p > 0
  {
    if k == 0 then 1 else 256 * Pow256(k - 1)
  }

  /** The low `k` bytes of `n`, most significant first. */
  function ToBigEndian(n: nat, k: nat): (b: bytes)
    ensures |b| == k
  {
    if k == 0 then [] else ToBigEndian(n / 256, k - 1) + [n % 256]
  }

  function FromBigEndian(b: bytes): (n: nat) {
    if b == [] then 0 else 256 * FromBigEndian(b[..|b| - 1]) + b[|b| - 1]
  }

  /** Decoding an encoding gives the number cut to `k` bytes. */
  lemma {:induction false} EncodeThenDecode(n: nat, k: nat)
    ensures FromBigEndian(ToBigEndian(n, k)) == n % Pow256(k)
  {
    if k > 0 {
      EncodeThenDecode(n / 256, k - 1);
      var b := ToBigEndian(n, k);
      assert b[..|b| - 1] == ToBigEndian(n / 256, k - 1);
      SplitMod(n, Pow256(k - 1));
    }
  }

  lemma SplitMod(n: nat, m: nat)
    requires m > 0
    ensures n % (256 * m) == 256 * ((n / 256) % m) + n % 256
  {
    var q, r := n / 256 / m, (n / 256) % m;
    assert n / 256 == m * q + r;
    var low := 256 * r + n % 256;
    assert n == 256 * (m * q + r) + n % 256 == (256 * m) * q + low;
    assert 0 <= low < 256 * m;
    UniqueRemainder(n, 256 * m, q, low);
  }

  lemma UniqueRemainder(n: nat, m: nat, q: nat, r: nat)
    requires m > 0 && n == m * q + r && r < m
    ensures n % m == r
  {
    var d := n / m - q;
    assert n == m * (n / m) + n % m;
    Distribute(m, n / m, q);
    if d >= 1 {
      Distribute(m, d, 1);
      NonNegative(m, d - 1);
    } else if d <= -1 {
      Distribute(m, -d, 1);
      NonNegative(m, -d - 1);
    }
  }

  lemma Distribute(m: int, a: int, b: int)
    ensures m * (a - b) == m * a - m * b
  {
  }

  lemma NonNegative(m: nat, a: nat)
    ensures m * a >= 0
  {
  }

  lemma EncodeThenDecodeExact(n: nat, k: nat)
    requires n < Pow256(k)
    ensures FromBigEndian(ToBigEndian(n, k)) == n
  {
    EncodeThenDecode(n, k);
  }

  lemma {:induction false} DecodeThenEncode(b: bytes)
    ensures ToBigEndian(FromBigEndian(b), |b|) == b
    ensures FromBigEndian(b) < Pow256(|b|)
  {
    if b != [] {
      DecodeThenEncode(b[..|b| - 1]);
      assert b == b[..|b| - 1] + [b[|b| - 1]];
    }
  }
}
