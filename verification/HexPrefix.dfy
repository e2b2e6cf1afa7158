/** Nibble paths and their hex-prefix encoding (Yellow Paper, Appendix C). */
module HexPrefix {
  import opened ByteStrings

  type Nibble = n: int | 0 <= n < 16

  /** Two nibbles a byte, high nibble first. */
  function Pairs(s: Bytes): (r: seq<Nibble>)
    ensures |r| == 2 * |s|
  {
    if |s| == 0 then [] else [s[0] / 16, s[0] % 16] + Pairs(s[1..])
  }

  function Join(high: Nibble, low: Nibble): Byte {
    var h: int := high;
    16 * h + low
  }

  function Unpairs(ns: seq<Nibble>): (r: Bytes)
    requires |ns| % 2 == 0
    ensures 2 * |r| == |ns|
    decreases |ns|
  {
    if |ns| == 0 then [] else [Join(ns[0], ns[1])] + Unpairs(ns[2..])
  }

  lemma {:induction false} PairsOfUnpairs(ns: seq<Nibble>)
    requires |ns| % 2 == 0
    ensures Pairs(Unpairs(ns)) == ns
    decreases |ns|
  {
    if |ns| > 0 {
      PairsOfUnpairs(ns[2..]);
      assert ns == [ns[0], ns[1]] + ns[2..];
    }
  }

  lemma {:induction false} UnpairsOfPairs(s: Bytes)
    ensures Unpairs(Pairs(s)) == s
    decreases |s|
  {
    if |s| > 0 {
      UnpairsOfPairs(s[1..]);
      assert Pairs(s)[2..] == Pairs(s[1..]);
      assert s == [s[0]] + s[1..];
    }
  }

  /** Nibbles 2i and 2i + 1 are the high and the low half of byte i. */
  lemma {:induction false} PairsAt(s: Bytes, i: nat)
    requires i < |s|
    ensures Pairs(s)[2 * i] == s[i] / 16 && Pairs(s)[2 * i + 1] == s[i] % 16
    decreases |s|
  {
    FirstPair(s);
    hide Pairs;
    if i > 0 {
      PairsAt(s[1..], i - 1);
      AfterTwo(s[0] / 16, s[0] % 16, Pairs(s[1..]), i);
    }
  }

  lemma AfterTwo(a: Nibble, b: Nibble, rest: seq<Nibble>, i: nat)
    requires 0 < i && 2 * i - 1 < |rest|
    ensures ([a, b] + rest)[2 * i] == rest[2 * (i - 1)] && ([a, b] + rest)[2 * i + 1] == rest[2 * (i - 1) + 1]
  {
  }

  /** `bytes_to_nibbles`: a key of 32 bytes gives 64 nibbles. */
  method BytesToNibbles(key: Bytes) returns (nibbles: seq<Nibble>)
    ensures nibbles == Pairs(key)
  {
    nibbles := [];
    assert key[0..] == key;
    for i := 0 to |key|
      invariant nibbles + Pairs(key[i..]) == Pairs(key)
    {
      assert key[i..][1..] == key[i + 1..];
      nibbles := nibbles + [key[i] / 16];
      nibbles := nibbles + [key[i] % 16];
    }
  }

  /** HP(path, t): the flag nibble is 2t + parity, and an odd path fills the low nibble. */
  function HpEncode(path: seq<Nibble>, leaf: bool): (r: Bytes)
    ensures |r| == |path| / 2 + 1
  {
    var flag := if leaf then 2 else 0;
    if |path| % 2 == 0 then [16 * flag] + Unpairs(path)
    else [16 * (flag + 1) + path[0]] + Unpairs(path[1..])
  }

  /** `decode_hp` as a function: (is_leaf, nibbles). */
  function DecodeHp(encoded: Bytes): (bool, seq<Nibble>) {
    if |encoded| == 0 then (false, [])
    else
      var flag := encoded[0] / 16;
      (flag >= 2, (if flag % 2 == 1 then [encoded[0] % 16] else []) + Pairs(encoded[1..]))
  }

  /** Any input is read nibble by nibble: a leaf from flag 2 on, and the path after the flag,
      or after the flag and one filler nibble when the flag is even. */
  lemma HpInNibbles(encoded: Bytes)
    ensures encoded == [] ==> DecodeHp(encoded) == (false, [])
    ensures |encoded| > 0 ==>
      && DecodeHp(encoded).0 == (encoded[0] >= 32)
      && DecodeHp(encoded).1 == Pairs(encoded)[if encoded[0] / 16 % 2 == 1 then 1 else 2..]
  {
    if |encoded| > 0 {
      FlagOfByte(encoded[0]);
      FirstPair(encoded);
      AfterFlag(encoded[0] / 16, encoded[0] % 16, Pairs(encoded[1..]));
      hide Pairs;
    }
  }

  lemma AfterFlag(flag: Nibble, low: Nibble, rest: seq<Nibble>)
    ensures ([flag, low] + rest)[1..] == [low] + rest && ([flag, low] + rest)[2..] == rest == [] + rest
  {
  }

  lemma FirstPair(s: Bytes)
    requires |s| > 0
    ensures Pairs(s) == [s[0] / 16, s[0] % 16] + Pairs(s[1..])
  {
  }

  lemma FlagOfByte(b: Byte)
    ensures b / 16 >= 2 <==> b >= 32
  {
  }

  method DecodeHpLoop(encoded: Bytes) returns (isLeaf: bool, nibbles: seq<Nibble>)
    ensures (isLeaf, nibbles) == DecodeHp(encoded)
  {
    if |encoded| == 0 {
      return false, [];
    }
    var firstNibble := encoded[0] / 16;
    isLeaf := firstNibble >= 2;
    var isOdd := firstNibble % 2 == 1;
    nibbles := [];
    if isOdd {
      nibbles := nibbles + [encoded[0] % 16];
    }
    ghost var start := nibbles;
    assert nibbles == if isOdd then [encoded[0] % 16] else [];
    assert DecodeHp(encoded) == (isLeaf, start + Pairs(encoded[1..]));
    for i := 1 to |encoded|
      invariant nibbles + Pairs(encoded[i..]) == start + Pairs(encoded[1..])
    {
      assert encoded[i..][1..] == encoded[i + 1..];
      nibbles := nibbles + [encoded[i] / 16];
      nibbles := nibbles + [encoded[i] % 16];
    }
    assert encoded[|encoded|..] == [] && nibbles + [] == nibbles;
  }

  /** Decoding undoes encoding, for every path and either kind of node. */
  lemma HpRoundTrip(path: seq<Nibble>, leaf: bool)
    ensures DecodeHp(HpEncode(path, leaf)) == (leaf, path)
  {
    var flag := if leaf then 2 else 0;
    if |path| % 2 == 0 {
      PairsOfUnpairs(path);
      assert HpEncode(path, leaf)[1..] == Unpairs(path);
      assert [] + path == path;
    } else {
      PairsOfUnpairs(path[1..]);
      assert HpEncode(path, leaf)[1..] == Unpairs(path[1..]);
      assert path == [path[0]] + path[1..];
    }
  }

  /** Encoding undoes decoding on exactly the well-formed encodings: a flag of at most 3,
      and no stray low nibble under an even flag. */
  lemma HpCanonical(encoded: Bytes)
    ensures
      var (leaf, path) := DecodeHp(encoded);
      HpEncode(path, leaf) == encoded <==>
        |encoded| > 0 && encoded[0] / 16 <= 3 && (encoded[0] / 16 % 2 == 0 ==> encoded[0] % 16 == 0)
  {
    if |encoded| > 0 {
      var (leaf, path) := DecodeHp(encoded);
      var tail := Pairs(encoded[1..]);
      UnpairsOfPairs(encoded[1..]);
      assert encoded == [encoded[0]] + encoded[1..];
      if encoded[0] / 16 % 2 == 0 {
        assert path == tail;
      } else {
        assert path[1..] == tail;
      }
      assert HpEncode(path, leaf)[1..] == encoded[1..];
    }
  }

  /** The bytes after the first in any encoding of a path. */
  function PathTail(path: seq<Nibble>): Bytes {
    Unpairs(if |path| % 2 == 0 then path else path[1..])
  }

  /** Every encoding of a path has the length of the standard one and differs from it in the
      first byte at most. */
  lemma EncodingsOfPath(encoded: Bytes, path: seq<Nibble>)
    requires |encoded| > 0 && DecodeHp(encoded).1 == path
    ensures |encoded| == |HpEncode(path, true)| && encoded[1..] == PathTail(path)
  {
    var tail := encoded[1..];
    UnpairsOfPairs(tail);
    if encoded[0] / 16 % 2 == 0 {
      assert path == Pairs(tail);
    } else {
      assert path[1..] == Pairs(tail);
    }
  }
}
