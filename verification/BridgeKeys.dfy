/** The string keys of the bridge's state maps, and why no two of them ever meet. */
module BridgeKeys {
  import opened ByteStrings

  function HexDigit(n: nat): char
    requires n < 16
  {
    "0123456789abcdef"[n]
  }

  /** `hex::encode` */
  function Hex(s: Bytes): (r: string)
    ensures |r| == 2 * |s|
  {
    if s == [] then [] else [HexDigit(s[0] / 16), HexDigit(s[0] % 16)] + Hex(s[1..])
  }

  /** A u64 formatted with `{}`. */
  function Decimal(n: nat): (r: string)
    ensures |r| > 0
  {
    if n < 10 then [HexDigit(n)] else Decimal(n / 10) + [HexDigit(n % 10)]
  }

  /** `make_deposit_key_str`: "0x{contract_hex}_{deposit_id}" */
  function DepositKey(contract: Address, depositId: U64): string {
    "0x" + Hex(contract.bytes) + "_" + Decimal(depositId)
  }

  /** "wd_{deposit_id}" */
  function WithdrawalKey(depositId: U64): string {
    "wd_" + Decimal(depositId)
  }

  /** "0x{block_hash_hex}" */
  function BlockKey(blockHash: Digest): string {
    "0x" + Hex(blockHash.bytes)
  }

  /** Two lower-case hexadecimal digits a byte, high half first. */
  lemma {:induction false} HexAt(s: Bytes, i: nat)
    requires i < |s|
    ensures Hex(s)[2 * i] == "0123456789abcdef"[s[i] / 16] && Hex(s)[2 * i + 1] == "0123456789abcdef"[s[i] % 16]
    decreases |s|
  {
    if i > 0 {
      HexAt(s[1..], i - 1);
      assert Hex(s)[2..] == Hex(s[1..]);
    }
  }

  /** The number a string of decimal digits stands for. */
  function NumeralValue(t: string): int {
    if |t| == 0 then 0 else 10 * NumeralValue(t[..|t| - 1]) + (t[|t| - 1] as int - '0' as int)
  }

  /** A decimal numeral without leading zeros. */
  predicate IsNumeral(t: string) {
    && |t| > 0 && (|t| > 1 ==> t[0] != '0')
    && forall i :: 0 <= i < |t| ==> '0' <= t[i] <= '9'
  }

  lemma {:induction false} DecimalReads(n: nat)
    ensures IsNumeral(Decimal(n)) && NumeralValue(Decimal(n)) == n
    ensures n > 0 ==> Decimal(n)[0] != '0'
    decreases n
  {
    if n >= 10 {
      var t := Decimal(n);
      DecimalReads(n / 10);
      assert t[..|t| - 1] == Decimal(n / 10) && t[|t| - 1] == HexDigit(n % 10);
    }
  }

  /** The three kinds of keys as text. */
  lemma KeysInText(contract: Address, id: U64, blockHash: Digest)
    ensures
      var key := DepositKey(contract, id);
      && |key| > 43 && key[..2] == "0x" && key[2..42] == Hex(contract.bytes) && key[42] == '_'
      && IsNumeral(key[43..]) && NumeralValue(key[43..]) == id
    ensures
      var key := WithdrawalKey(id);
      |key| > 3 && key[..3] == "wd_" && IsNumeral(key[3..]) && NumeralValue(key[3..]) == id
    ensures
      var key := BlockKey(blockHash);
      |key| == 66 && key[..2] == "0x" && key[2..] == Hex(blockHash.bytes)
  {
    DecimalReads(id);
    hide Decimal, Hex, IsNumeral, NumeralValue;
    assert DepositKey(contract, id)[43..] == Decimal(id) && WithdrawalKey(id)[3..] == Decimal(id);
  }

  lemma HexDigitInjective(a: nat, b: nat)
    requires a < 16 && b < 16 && HexDigit(a) == HexDigit(b)
    ensures a == b
  {
  }

  lemma {:induction false} HexInjective(a: Bytes, b: Bytes)
    requires |a| == |b| && Hex(a) == Hex(b)
    ensures a == b
  {
    if a != [] {
      assert Hex(a)[0] == HexDigit(a[0] / 16) && Hex(b)[0] == HexDigit(b[0] / 16);
      assert Hex(a)[1] == HexDigit(a[0] % 16) && Hex(b)[1] == HexDigit(b[0] % 16);
      HexDigitInjective(a[0] / 16, b[0] / 16);
      HexDigitInjective(a[0] % 16, b[0] % 16);
      assert Hex(a)[2..] == Hex(a[1..]) && Hex(b)[2..] == Hex(b[1..]);
      HexInjective(a[1..], b[1..]);
      assert a == [a[0]] + a[1..] && b == [b[0]] + b[1..];
    }
  }

  lemma {:induction false} DecimalInjective(a: nat, b: nat)
    requires Decimal(a) == Decimal(b)
    ensures a == b
  {
    var s := Decimal(a);
    assert (|s| == 1 <==> a < 10) && (|s| == 1 <==> b < 10);
    if a < 10 {
      HexDigitInjective(a, b);
    } else {
      assert s[..|s| - 1] == Decimal(a / 10) == Decimal(b / 10);
      assert s[|s| - 1] == HexDigit(a % 10) == HexDigit(b % 10);
      DecimalInjective(a / 10, b / 10);
      HexDigitInjective(a % 10, b % 10);
    }
  }

  /** One deposit, one key: the key determines contract and id. */
  lemma DepositKeyInjective(c: Address, i: U64, c': Address, i': U64)
    requires DepositKey(c, i) == DepositKey(c', i')
    ensures c == c' && i == i'
  {
    var k := DepositKey(c, i);
    assert Hex(c.bytes) == k[2..42] == Hex(c'.bytes);
    assert Decimal(i) == k[43..] == Decimal(i');
    HexInjective(c.bytes, c'.bytes);
    DecimalInjective(i, i');
  }

  lemma WithdrawalKeyInjective(i: U64, i': U64)
    requires WithdrawalKey(i) == WithdrawalKey(i')
    ensures i == i'
  {
    var k := WithdrawalKey(i);
    assert Decimal(i) == k[3..] == Decimal(i');
    DecimalInjective(i, i');
  }

  /** The two families sharing one map never meet. */
  lemma KeyFamiliesDisjoint(c: Address, i: U64, i': U64)
    ensures DepositKey(c, i) != WithdrawalKey(i')
  {
    assert DepositKey(c, i)[0] == '0' && WithdrawalKey(i')[0] == 'w';
  }

  lemma BlockKeyInjective(a: Digest, b: Digest)
    requires BlockKey(a) == BlockKey(b)
    ensures a == b
  {
    assert Hex(a.bytes) == BlockKey(a)[2..] == BlockKey(b)[2..] == Hex(b.bytes);
    HexInjective(a.bytes, b.bytes);
  }
}
