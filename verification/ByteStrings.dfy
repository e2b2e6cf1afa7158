/** Byte strings, 32-byte digests, fixed-width integers and what it means for a
    hash function to collide. Hash functions are parameters throughout: nothing is
    assumed of them, so every theorem holds for SHA-256 and Keccak-256 alike. */
module ByteStrings {

  type Byte = b: int | 0 <= b < 256
  type Bytes = seq<Byte>
  type Bytes32 = b: Bytes | |b| == 32 witness seq(32, _ => 0)
  type Bytes20 = b: Bytes | |b| == 20 witness seq(20, _ => 0)
  datatype Digest = Digest(bytes: Bytes32)
  datatype Address = Address(bytes: Bytes20)
  type HashFn = Bytes -> Digest

  const U64_MOD: int := 0x1_0000_0000_0000_0000
  type U64 = n: int | 0 <= n < U64_MOD

  /** `[b; n]` */
  function Repeat(b: Byte, n: nat): (s: Bytes)
    ensures |s| == n && forall i :: 0 <= i < n ==> s[i] == b
  {
    if n == 0 then [] else [b] + Repeat(b, n - 1)
  }

  const ZERO_DIGEST: Digest := Digest(Repeat(0, 32))
  const MAX_DIGEST: Digest := Digest(Repeat(255, 32))

  datatype Option<+T> = None | Some(value: T)
  datatype Result<+T, +E> = Ok(value: T) | Err(error: E)

  /** Two different inputs with one digest. Soundness theorems name such a pair
      outright: its mere existence would say nothing, since digests are finite. */
  predicate Collision(h: HashFn, inputs: (Bytes, Bytes)) {
    inputs.0 != inputs.1 && h(inputs.0) == h(inputs.1)
  }

  function Pow2(d: nat): (p: nat)
    ensures p > 0
  {
    if d == 0 then 1 else 2 * Pow2(d - 1)
  }

  /** Dropping the low bit. */
  lemma HalfOfSum(x: nat, y: nat, r: nat)
    requires x == 2 * y + r && r < 2
    ensures x / 2 == y && x % 2 == r
  {
  }

  /** u64 addition of a release build: it wraps. */
  function WrapAdd(a: U64, b: U64): (r: U64)
    ensures r == a + b || r == a + b - U64_MOD
  {
    if a + b < U64_MOD then a + b else a + b - U64_MOD
  }

  function SaturatingSub(a: U64, b: U64): U64 {
    if b <= a then a - b else 0
  }

  /** `to_le_bytes`: the `width` low bytes of n, least significant first. */
  function Le(n: nat, width: nat): (s: Bytes)
    ensures |s| == width
  {
    if width == 0 then [] else [n % 256] + Le(n / 256, width - 1)
  }

  function FromLe(s: Bytes): nat {
    if s == [] then 0 else s[0] + 256 * FromLe(s[1..])
  }

  function Pow256(k: nat): (p: nat)
    ensures p > 0
  {
    if k == 0 then 1 else 256 * Pow256(k - 1)
  }

  lemma {:induction false} FromLeOfLe(n: nat, width: nat)
    requires n < Pow256(width)
    ensures FromLe(Le(n, width)) == n
  {
    if width > 0 {
      FromLeOfLe(n / 256, width - 1);
    }
  }

  lemma DivTwice(n: nat, m: nat, p: nat)
    requires m > 0 && p > 0
    ensures m * p > 0 && n / m / p == n / (m * p)
  {
    var d := n / m;
    NestedRemainders(n, m, p, d, n % m, d / p, d % p);
    QuotientIs(n, m * p, d / p, m * (d % p) + n % m);
  }

  lemma NestedRemainders(n: nat, m: nat, p: nat, d: nat, s: nat, q: nat, r: nat)
    requires n == m * d + s && s < m && d == p * q + r && r < p
    ensures n == m * p * q + (m * r + s) && m * r + s < m * p
  {
    Distribute(m, p * q, r);
    Associate(m, p, q);
    MultipleGap(m, r, p);
  }

  lemma Distribute(m: nat, x: nat, y: nat)
    ensures m * (x + y) == m * x + m * y
  {
  }

  lemma Associate(m: nat, p: nat, q: nat)
    ensures m * (p * q) == m * p * q
  {
  }

  lemma QuotientIs(n: nat, m: nat, q: nat, r: nat)
    requires n == m * q + r && r < m
    ensures n / m == q
  {
    var e := n / m;
    assert n == m * e + n % m;
    if q < e {
      MultipleGap(m, q, e);
    } else if e < q {
      MultipleGap(m, e, q);
    }
  }

  lemma RemainderIs(n: nat, m: nat, q: nat, r: nat)
    requires n == m * q + r && r < m
    ensures n % m == r
  {
    QuotientIs(n, m, q, r);
  }

  lemma MultipleGap(m: nat, a: nat, b: nat)
    requires a < b
    ensures m * b >= m * a + m
  {
    var c := b - a - 1;
    Distribute(m, a, 1 + c);
    Distribute(m, 1, c);
  }

  /** Byte k counts the 256^k. */
  lemma {:induction false} LeAt(n: nat, width: nat, k: nat)
    requires k < width
    ensures Le(n, width)[k] == n / Pow256(k) % 256
    decreases width
  {
    if k > 0 {
      LeAt(n / 256, width - 1, k - 1);
      DivTwice(n, 256, Pow256(k - 1));
    }
  }

  /** `u64::to_le_bytes`, byte by byte. */
  lemma Le64InBytes(n: U64)
    ensures Le(n, 8) ==
      [n % 256, n / 0x100 % 256, n / 0x1_0000 % 256, n / 0x100_0000 % 256, n / 0x1_0000_0000 % 256,
       n / 0x100_0000_0000 % 256, n / 0x1_0000_0000_0000 % 256, n / 0x100_0000_0000_0000 % 256]
  {
    forall k: nat | k < 8 ensures Le(n, 8)[k] == n / Pow256(k) % 256 {
      LeAt(n, 8, k);
    }
    assert Pow256(1) == 0x100 && Pow256(2) == 0x1_0000 && Pow256(3) == 0x100_0000 && Pow256(4) == 0x1_0000_0000;
    assert Pow256(5) == 0x100_0000_0000 && Pow256(6) == 0x1_0000_0000_0000 && Pow256(7) == 0x100_0000_0000_0000;
  }

  /** Eight bytes hold every u64, so the fixed-width encoding is injective. */
  lemma Le64Injective(a: U64, b: U64)
    requires Le(a, 8) == Le(b, 8)
    ensures a == b
  {
    assert Pow256(8) == U64_MOD;
    FromLeOfLe(a, 8);
    FromLeOfLe(b, 8);
  }
}
