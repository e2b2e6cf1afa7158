/** RLP: the Yellow Paper's encoding (Appendix B) and the circuit's minimal decoder. */
module Rlp {
  import opened ByteStrings

  /** The number of usize values: 2^32 in the circuit's 32-bit machine, 2^64 on a host.
      Lengths wrap around it. */
  type Usize = m: nat | m == 0x1_0000_0000 || m == U64_MOD witness U64_MOD

  /** `Rejected` is None; `Aborted` is a slice out of order or a loop that never advances. */
  datatype Decoded<+T> = Value(v: T) | Rejected | Aborted

  // ---------- Encoding ----------

  /** Big-endian, without leading zeros. */
  function Be(n: nat): Bytes {
    if n == 0 then [] else Be(n / 256) + [n % 256]
  }

  /** A header announcing `len` bytes: short form up to 55, else the length's length. */
  function Header(base: Byte, len: nat): (h: Bytes)
    requires base == 0x80 || base == 0xc0
    ensures |h| > 0
  {
    if len <= 55 then [base + len] else [(base + 55 + |Be(len)|) % 256] + Be(len)
  }

  function EncodeString(s: Bytes): (r: Bytes)
    ensures |r| > 0
  {
    if |s| == 1 && s[0] <= 0x7f then s else Header(0x80, |s|) + s
  }

  function EncodeList(payload: Bytes): (r: Bytes)
    ensures |r| > 0
  {
    Header(0xc0, |payload|) + payload
  }

  /** A byte string, or a nested list given by its payload. */
  datatype Item = Str(bytes: Bytes) | Nested(payload: Bytes) {
    function Encoding(): (r: Bytes)
      ensures |r| > 0
    {
      match this
      case Str(s) => EncodeString(s)
      case Nested(p) => EncodeList(p)
    }

    /** What the decoder hands back: a string's bytes, a list's raw encoding. */
    function Content(): Bytes {
      match this
      case Str(s) => s
      case Nested(p) => EncodeList(p)
    }
  }

  function Payload(items: seq<Item>): Bytes
    decreases |items|
  {
    if |items| == 0 then [] else items[0].Encoding() + Payload(items[1..])
  }

  function Contents(items: seq<Item>): (r: seq<Bytes>)
    ensures |r| == |items| && forall i :: 0 <= i < |r| ==> r[i] == items[i].Content()
    decreases |items|
  {
    if |items| == 0 then [] else [items[0].Content()] + Contents(items[1..])
  }

  // ---------- Decoding ----------

  /** `decode_be_usize`: each shift drops what no longer fits. */
  function BeUsize(m: Usize, s: Bytes): (n: nat)
    ensures n < m
    decreases |s|
  {
    if |s| == 0 then 0
    else
      ShiftFits(m, BeUsize(m, s[..|s| - 1]), s[|s| - 1]);
      BeUsize(m, s[..|s| - 1]) * 256 % m + s[|s| - 1]
  }

  /** A usize is a whole number of bytes wide, so a shifted value has room for one more. */
  lemma ShiftFits(m: Usize, n: nat, b: Byte)
    ensures n * 256 % m + b < m
  {
    if m == U64_MOD {
      var q, r := n / 0x100_0000_0000_0000, n % 0x100_0000_0000_0000;
      assert n * 256 == q * U64_MOD + r * 256;
      assert n * 256 % U64_MOD == r * 256;
    } else {
      var q, r := n / 0x100_0000, n % 0x100_0000;
      assert n * 256 == q * 0x1_0000_0000 + r * 256;
      assert n * 256 % 0x1_0000_0000 == r * 256;
    }
  }

  method DecodeBeUsize(m: Usize, s: Bytes) returns (result: nat)
    ensures result == BeUsize(m, s)
  {
    result := 0;
    for i := 0 to |s|
      invariant result == BeUsize(m, s[..i])
    {
      assert s[..i + 1][..i] == s[..i];
      result := result * 256 % m + s[i];
    }
    assert s[..|s|] == s;
  }

  /** The header of a string or list: how many bytes it takes and how many follow. */
  datatype Span = Span(header: nat, len: nat)

  function SpanOf(m: Usize, base: Byte, data: Bytes): Decoded<Span>
    requires |data| > 0 && base <= data[0] && (base == 0x80 || base == 0xc0)
    requires base == 0x80 ==> data[0] < 0xc0
  {
    if data[0] <= base + 55 then Value(Span(1, data[0] - base))
    else
      var lenOfLen := data[0] - base - 55;
      if |data| < 1 + lenOfLen then Rejected
      else Value(Span(1 + lenOfLen, BeUsize(m, data[1..1 + lenOfLen])))
  }

  /** `rlp_decode_item`: the item's bytes and how many bytes were consumed. */
  function DecodeItem(m: Usize, data: Bytes): (r: Decoded<(Bytes, nat)>)
    ensures r.Value? ==> r.v.1 <= |data|
  {
    if |data| == 0 then Rejected
    else if data[0] <= 0x7f then Value(([data[0]], 1))
    else if data[0] <= 0xbf then
      match SpanOf(m, 0x80, data)
      case Rejected => Rejected
      case Aborted => Aborted
      case Value(s) =>
        var end := (s.header + s.len) % m;
        if |data| < end then Rejected
        else if end < s.header then Aborted
        else Value((data[s.header..end], end))
    else
      match SpanOf(m, 0xc0, data)
      case Rejected => Rejected
      case Aborted => Aborted
      case Value(s) =>
        var end := (s.header + s.len) % m;
        if |data| < end then Rejected else Value((data[..end], end))
  }

  /** The decoder's loop over a payload. */
  function DecodeItems(m: Usize, payload: Bytes): Decoded<seq<Bytes>>
    decreases |payload|
  {
    if |payload| == 0 then Value([])
    else
      match DecodeItem(m, payload)
      case Rejected => Rejected
      case Aborted => Aborted
      case Value((item, consumed)) =>
        if consumed == 0 then Aborted
        else
          match DecodeItems(m, payload[consumed..])
          case Rejected => Rejected
          case Aborted => Aborted
          case Value(rest) => Value([item] + rest)
  }

  /** The payload of a list; bytes after the list are ignored. */
  function ListPayload(m: Usize, data: Bytes): Decoded<Bytes> {
    if |data| == 0 || data[0] < 0xc0 then Rejected
    else
      match SpanOf(m, 0xc0, data)
      case Rejected => Rejected
      case Aborted => Aborted
      case Value(s) =>
        var end := (s.header + s.len) % m;
        if |data| < end then Rejected
        else if end < s.header then Aborted
        else Value(data[s.header..end])
  }

  /** `rlp_decode_list` */
  function DecodeList(m: Usize, data: Bytes): Decoded<seq<Bytes>> {
    match ListPayload(m, data)
    case Rejected => Rejected
    case Aborted => Aborted
    case Value(payload) => DecodeItems(m, payload)
  }

  method RlpDecodeList(m: Usize, data: Bytes) returns (r: Decoded<seq<Bytes>>)
    ensures r == DecodeList(m, data)
  {
    hide DecodeItem, ListPayload, SpanOf, BeUsize, Prepend;
    var p := ListPayload(m, data);
    if !p.Value? {
      return if p.Rejected? then Rejected else Aborted;
    }
    var payload := p.v;
    var items: seq<Bytes> := [];
    var pos: nat := 0;
    PrependNothing(DecodeItems(m, payload));
    assert payload[0..] == payload;
    while pos < |payload|
      invariant pos <= |payload|
      invariant DecodeItems(m, payload) == Prepend(items, DecodeItems(m, payload[pos..]))
      decreases |payload| - pos
    {
      var next := DecodeItem(m, payload[pos..]);
      PrependFailure(items);
      if !next.Value? {
        return if next.Rejected? then Rejected else Aborted;
      }
      var (item, consumed) := next.v;
      if consumed == 0 {
        return Aborted;
      }
      ItemsStep(m, payload[pos..]);
      assert payload[pos..][consumed..] == payload[pos + consumed..];
      PrependStep(items, item, DecodeItems(m, payload[pos + consumed..]));
      items := items + [item];
      pos := pos + consumed;
    }
    PrependToNothing(items);
    assert payload[pos..] == [];
    return Value(items);
  }

  function Prepend(items: seq<Bytes>, rest: Decoded<seq<Bytes>>): Decoded<seq<Bytes>> {
    if rest.Value? then Value(items + rest.v) else rest
  }

  lemma ItemsStep(m: Usize, payload: Bytes)
    requires |payload| > 0 && DecodeItem(m, payload).Value? && DecodeItem(m, payload).v.1 > 0
    ensures
      var (item, consumed) := DecodeItem(m, payload).v;
      DecodeItems(m, payload) == Prepend([item], DecodeItems(m, payload[consumed..]))
  {
    hide DecodeItem;
  }

  lemma PrependToNothing(items: seq<Bytes>)
    ensures Prepend(items, Value([])) == Value(items)
  {
    assert items + [] == items;
  }

  lemma PrependFailure(items: seq<Bytes>)
    ensures Prepend(items, Rejected) == Rejected && Prepend(items, Aborted) == Aborted
  {
  }

  lemma PrependNothing(rest: Decoded<seq<Bytes>>)
    ensures Prepend([], rest) == rest
  {
    if rest.Value? {
      assert [] + rest.v == rest.v;
    }
  }

  lemma PrependStep(items: seq<Bytes>, item: Bytes, rest: Decoded<seq<Bytes>>)
    ensures Prepend(items, Prepend([item], rest)) == Prepend(items + [item], rest)
  {
    if rest.Value? {
      assert items + ([item] + rest.v) == items + [item] + rest.v;
    }
  }

  // ---------- Round trip ----------

  lemma {:induction false} BeLength(n: nat, k: nat)
    requires n < Pow256(k)
    ensures |Be(n)| <= k && (n > 0 ==> |Be(n)| > 0)
    decreases n
  {
    if n > 0 {
      BeLength(n / 256, k - 1);
    }
  }

  lemma {:induction false} BeUsizeOfBe(m: Usize, n: nat)
    requires n < m
    ensures BeUsize(m, Be(n)) == n
    decreases n
  {
    if n > 0 {
      BeUsizeOfBe(m, n / 256);
      assert Be(n)[..|Be(n)| - 1] == Be(n / 256);
    }
  }

  lemma ThreeParts(h: Bytes, body: Bytes, rest: Bytes)
    ensures
      var data := h + body + rest;
      data[|h|..|h| + |body|] == body && data[..|h| + |body|] == h + body
  {
  }

  /** A header decodes to its own length and the length it announces. */
  lemma HeaderDecodes(m: Usize, base: Byte, len: nat, rest: Bytes)
    requires (base == 0x80 || base == 0xc0) && len < m
    ensures
      var h := Header(base, len);
      var data := h + rest;
      && base <= data[0] && (base == 0x80 ==> data[0] < 0xc0)
      && SpanOf(m, base, data) == Value(Span(|h|, len))
  {
    if len > 55 {
      LongHeaderDecodes(m, base, len, rest);
    }
  }

  lemma LongHeaderDecodes(m: Usize, base: Byte, len: nat, rest: Bytes)
    requires (base == 0x80 || base == 0xc0) && 55 < len < m
    ensures
      var h := Header(base, len);
      var data := h + rest;
      && base + 55 < data[0] && (base == 0x80 ==> data[0] < 0xc0)
      && SpanOf(m, base, data) == Value(Span(|h|, len))
  {
    hide Be, BeUsize, Pow256;
    assert Pow256(8) == U64_MOD by {
      Pow256Of8();
    }
    BeLength(len, 8);
    BeUsizeOfBe(m, len);
    var h := Header(base, len);
    var data := h + rest;
    assert data[0] == base + 55 + |Be(len)|;
    assert data[1..|h|] == Be(len);
  }

  lemma Pow256Of8()
    ensures Pow256(8) == U64_MOD
  {
  }

  /** What the decoder sees of an encoded string or list. */
  lemma EncodedSpan(m: Usize, base: Byte, body: Bytes, rest: Bytes)
    requires (base == 0x80 || base == 0xc0) && |Header(base, |body|) + body| < m
    ensures
      var h := Header(base, |body|);
      var data := h + body + rest;
      && data[0] == h[0] && base <= h[0] && (base == 0x80 ==> h[0] < 0xc0)
      && SpanOf(m, base, data) == Value(Span(|h|, |body|))
      && (|h| + |body|) % m == |h| + |body| <= |data|
      && data[|h|..|h| + |body|] == body && data[..|h| + |body|] == h + body
  {
    hide Header, SpanOf;
    var h := Header(base, |body|);
    assert h + body + rest == h + (body + rest);
    HeaderDecodes(m, base, |body|, body + rest);
    HeaderByte(base, |body|);
    ThreeParts(h, body, rest);
    SmallMod(|h| + |body|, m);
  }

  lemma HeaderByte(base: Byte, len: nat)
    requires base == 0x80 || base == 0xc0
    requires len < U64_MOD
    ensures base <= Header(base, len)[0] && (base == 0x80 ==> Header(base, len)[0] < 0xc0)
  {
    Pow256Of8();
    BeLength(len, 8);
    hide Be, Pow256;
  }

  lemma SmallMod(x: nat, m: Usize)
    requires x < m
    ensures x % m == x
  {
  }

  /** An encoded item, whatever follows it, decodes to itself and consumes its encoding. */
  lemma ItemRoundTrip(m: Usize, item: Item, rest: Bytes)
    requires |item.Encoding()| < m
    ensures DecodeItem(m, item.Encoding() + rest) == Value((item.Content(), |item.Encoding()|))
  {
    hide Header, SpanOf, BeUsize;
    match item
    case Str(s) =>
      if |s| == 1 && s[0] <= 0x7f {
        assert (item.Encoding() + rest)[0] == s[0] && s == [s[0]];
      } else {
        EncodedSpan(m, 0x80, s, rest);
      }
    case Nested(p) =>
      EncodedSpan(m, 0xc0, p, rest);
  }

  lemma {:induction false} ItemsRoundTrip(m: Usize, items: seq<Item>)
    requires |Payload(items)| < m
    ensures DecodeItems(m, Payload(items)) == Value(Contents(items))
    decreases |items|
  {
    if |items| > 0 {
      var first, rest := items[0].Encoding(), Payload(items[1..]);
      ItemRoundTrip(m, items[0], rest);
      ItemsRoundTrip(m, items[1..]);
      assert (first + rest)[|first|..] == rest;
    }
  }

  /** Decoding an encoded list returns the string payloads and the raw nested lists, in
      order, even with bytes trailing the list. */
  lemma ListRoundTrip(m: Usize, items: seq<Item>, trailing: Bytes)
    requires |EncodeList(Payload(items))| < m
    ensures DecodeList(m, EncodeList(Payload(items)) + trailing) == Value(Contents(items))
  {
    hide Header, SpanOf, DecodeItems, Payload;
    EncodedSpan(m, 0xc0, Payload(items), trailing);
    ItemsRoundTrip(m, items);
  }

  // ---------- Any input ----------

  function Flatten(pieces: seq<Bytes>): Bytes
    decreases |pieces|
  {
    if |pieces| == 0 then [] else pieces[0] + Flatten(pieces[1..])
  }

  /** The stretches of payload the decoder's loop consumes, one an item. */
  function Pieces(m: Usize, payload: Bytes): (r: seq<Bytes>)
    requires DecodeItems(m, payload).Value?
    ensures |r| == |DecodeItems(m, payload).v|
    decreases |payload|
  {
    if |payload| == 0 then []
    else
      var consumed := DecodeItem(m, payload).v.1;
      [payload[..consumed]] + Pieces(m, payload[consumed..])
  }

  /** Whenever decoding succeeds, on any input, the pieces partition the payload. */
  lemma {:induction false} PiecesPartition(m: Usize, payload: Bytes)
    requires DecodeItems(m, payload).Value?
    ensures Flatten(Pieces(m, payload)) == payload
    decreases |payload|
  {
    if |payload| > 0 {
      var consumed := DecodeItem(m, payload).v.1;
      hide DecodeItem;
      PiecesPartition(m, payload[consumed..]);
      assert Pieces(m, payload)[1..] == Pieces(m, payload[consumed..]);
      assert payload == payload[..consumed] + payload[consumed..];
    }
  }

  /** Each piece is a step forward, and item i is what the decoder reads where piece i
      begins. */
  lemma {:induction false} PieceDecodes(m: Usize, payload: Bytes, i: nat)
    requires DecodeItems(m, payload).Value? && i < |DecodeItems(m, payload).v|
    ensures
      var items, pieces := DecodeItems(m, payload).v, Pieces(m, payload);
      |pieces[i]| > 0 && DecodeItem(m, Flatten(pieces[i..])) == Value((items[i], |pieces[i]|))
    decreases i
  {
    hide DecodeItem, Flatten;
    var consumed := DecodeItem(m, payload).v.1;
    var pieces := Pieces(m, payload);
    if i == 0 {
      PiecesPartition(m, payload);
      assert pieces[0..] == pieces;
    } else {
      PieceDecodes(m, payload[consumed..], i - 1);
      assert pieces[i..] == Pieces(m, payload[consumed..])[i - 1..];
    }
  }

  /** The number a byte string stands for, most significant byte first, of any size. */
  function Number(s: Bytes): nat {
    if |s| == 0 then 0 else 256 * Number(s[..|s| - 1]) + s[|s| - 1]
  }

  /** `decode_be_usize` drops what the usize cannot hold and nothing else. */
  lemma {:induction false} BeUsizeIsNumber(m: Usize, s: Bytes)
    ensures BeUsize(m, s) == Number(s) % m
    decreases |s|
  {
    if |s| > 0 {
      var init := s[..|s| - 1];
      BeUsizeIsNumber(m, init);
      ShiftMod(m, Number(init), s[|s| - 1]);
    }
  }

  lemma ShiftMod(m: Usize, x: nat, b: Byte)
    ensures (x % m) * 256 % m + b == (256 * x + b) % m
  {
    ShiftFits(m, x % m, b);
    var q, r := x / m, x % m;
    var q', r' := r * 256 / m, r * 256 % m;
    ShiftedParts(m, x, q, r, q', r', b);
    RemainderIs(256 * x + b, m, 256 * q + q', r' + b);
  }

  lemma ShiftedParts(m: nat, x: nat, q: nat, r: nat, q': nat, r': nat, b: nat)
    requires x == m * q + r && r * 256 == m * q' + r'
    ensures 256 * x + b == m * (256 * q + q') + (r' + b)
  {
    Distribute(m, 256 * q, q');
    assert m * (256 * q) == 256 * (m * q);
  }

  /** h announces `len` bytes, in the short or in a long form, shortest or not. */
  predicate Announces(base: Byte, h: Bytes, len: nat) {
    || (len <= 55 && |h| == 1 && h[0] == base + len)
    || (2 <= |h| <= 9 && h[0] == base + 54 + |h| && Number(h[1..]) == len)
  }

  lemma {:induction false} NumberBound(s: Bytes)
    ensures Number(s) < Pow256(|s|)
    decreases |s|
  {
    if |s| > 0 {
      NumberBound(s[..|s| - 1]);
    }
  }

  lemma {:induction false} NumberOfBe(n: nat)
    ensures Number(Be(n)) == n
    decreases n
  {
    if n > 0 {
      NumberOfBe(n / 256);
      assert Be(n)[..|Be(n)| - 1] == Be(n / 256);
    }
  }

  /** The header the encoder writes announces the length, and no header of the length is
      shorter. */
  lemma HeaderIsShortest(base: Byte, len: nat, h: Bytes)
    requires (base == 0x80 || base == 0xc0) && len < U64_MOD
    ensures Announces(base, Header(base, len), len)
    ensures Announces(base, h, len) ==> |Header(base, len)| <= |h|
  {
    hide Number, Be, Pow256;
    Pow256Of8();
    BeLength(len, 8);
    NumberOfBe(len);
    assert Header(base, len)[1..] == if len <= 55 then [] else Be(len);
    if Announces(base, h, len) && |h| > 1 {
      NumberBound(h[1..]);
      BeLength(len, |h| - 1);
    }
  }

  /** A string of one byte under 0x80 is its own encoding; every other has a header. */
  lemma EncodedString(s: Bytes)
    ensures EncodeString(s) == s <==> |s| == 1 && s[0] < 0x80
    ensures EncodeString(s) == s || EncodeString(s) == Header(0x80, |s|) + s
  {
    assert |Header(0x80, |s|) + s| > |s|;
  }

  predicate StringAt(data: Bytes, k: nat, n: nat, item: Bytes) {
    k <= n <= |data| && Announces(0x80, data[..k], n - k) && item == data[k..n]
  }

  predicate ListAt(data: Bytes, k: nat, n: nat, item: Bytes) {
    k <= n <= |data| && Announces(0xc0, data[..k], n - k) && item == data[..n]
  }

  /** The first n bytes of the input are an item: a byte under 0x80, a string after a header,
      or a list, which is handed back with its header. */
  ghost predicate Reads(data: Bytes, item: Bytes, n: nat) {
    || (n == 1 <= |data| && data[0] < 0x80 && item == data[..1])
    || (exists k: nat :: StringAt(data, k, n, item))
    || (exists k: nat :: ListAt(data, k, n, item))
  }

  /** The end the header of the input announces is out of the usize range. */
  predicate EndWraps(m: Usize, data: Bytes) {
    && |data| > 0 && data[0] >= 0xb8 && !(0xc0 <= data[0] <= 0xf7)
    && var k := if data[0] < 0xc0 then data[0] - 0xb6 else data[0] - 0xf6;
       |data| >= k && k + Number(data[1..k]) >= m
  }

  lemma HeaderSpan(m: Usize, base: Byte, data: Bytes, k: nat, len: nat)
    requires base == 0x80 || base == 0xc0
    requires k <= |data| && len < m && Announces(base, data[..k], len)
    ensures 0 < k && base <= data[0] && (base == 0x80 ==> data[0] < 0xc0)
    ensures SpanOf(m, base, data) == Value(Span(k, len))
  {
    assert data[0] == data[..k][0];
    if k > 1 {
      assert data[..k][1..] == data[1..k];
      BeUsizeIsNumber(m, data[1..k]);
    }
    hide Number, BeUsize;
  }

  lemma SpanHeader(m: Usize, base: Byte, data: Bytes)
    requires |data| > 0 && base <= data[0] && (base == 0x80 || base == 0xc0)
    requires base == 0x80 ==> data[0] < 0xc0
    requires !EndWraps(m, data)
    ensures SpanOf(m, base, data).Value? ==>
      var s := SpanOf(m, base, data).v;
      s.header <= |data| && Announces(base, data[..s.header], s.len) && (s.header + s.len) % m == s.header + s.len
  {
    hide Number, BeUsize;
    if SpanOf(m, base, data).Value? {
      var k := SpanOf(m, base, data).v.header;
      if data[0] <= base + 55 {
        assert data[..1][0] == data[0];
      } else {
        assert data[..k][1..] == data[1..k];
        LongSpanFits(m, base, data, k);
      }
    }
  }

  lemma LongSpanFits(m: Usize, base: Byte, data: Bytes, k: nat)
    requires base == 0x80 || base == 0xc0
    requires 2 <= k <= |data| && k == data[0] - base - 54 && (base == 0x80 ==> data[0] < 0xc0)
    requires !EndWraps(m, data)
    ensures BeUsize(m, data[1..k]) == Number(data[1..k]) && k + Number(data[1..k]) < m
    ensures (k + Number(data[1..k])) % m == k + Number(data[1..k])
  {
    hide Number, BeUsize;
    BeUsizeIsNumber(m, data[1..k]);
    var n := Number(data[1..k]);
    assert k + n < m;
    SmallMod(n, m);
    SmallMod(k + n, m);
  }

  /** Decoding an item, exactly: unless its announced end wraps around, the decoder reads what
      the encoding rules say is there, headers that are longer than need be included. */
  lemma ItemExactly(m: Usize, data: Bytes, item: Bytes, n: nat)
    requires |data| < m && !EndWraps(m, data)
    ensures DecodeItem(m, data) == Value((item, n)) <==> Reads(data, item, n)
  {
    hide Number, BeUsize, SpanOf, Announces, EndWraps;
    if |data| > 0 && data[0] < 0x80 {
      assert data[..1] == [data[0]];
      HeadersStartAbove(data, item, n);
    } else if DecodeItem(m, data) == Value((item, n)) {
      var base: Byte := if data[0] < 0xc0 then 0x80 else 0xc0;
      SpanHeader(m, base, data);
      var k := SpanOf(m, base, data).v.header;
      assert if base == 0x80 then StringAt(data, k, n, item) else ListAt(data, k, n, item);
    } else if k: nat :| StringAt(data, k, n, item) {
      HeaderSpan(m, 0x80, data, k, n - k);
      SmallMod(n, m);
    } else if k: nat :| ListAt(data, k, n, item) {
      HeaderSpan(m, 0xc0, data, k, n - k);
      SmallMod(n, m);
    }
  }

  /** A list whose payload is bytes k to n of the input and holds these items. */
  predicate ListReads(m: Usize, data: Bytes, k: nat, n: nat, items: seq<Bytes>) {
    && k <= n <= |data| && Announces(0xc0, data[..k], n - k)
    && DecodeItems(m, data[k..n]) == Value(items)
  }

  /** And a list: its header in any form, then its items; what follows it is ignored. */
  lemma ListExactly(m: Usize, data: Bytes, items: seq<Bytes>)
    requires |data| < m && !EndWraps(m, data)
    ensures DecodeList(m, data) == Value(items) <==> exists k: nat, n: nat :: ListReads(m, data, k, n, items)
  {
    hide Number, BeUsize, SpanOf, Announces, EndWraps, DecodeItems;
    if DecodeList(m, data) == Value(items) {
      SpanHeader(m, 0xc0, data);
      var s := SpanOf(m, 0xc0, data).v;
      assert ListReads(m, data, s.header, s.header + s.len, items);
    }
    if k: nat, n: nat :| ListReads(m, data, k, n, items) {
      HeaderSpan(m, 0xc0, data, k, n - k);
      SmallMod(n, m);
    }
  }

  lemma HeadersStartAbove(data: Bytes, item: Bytes, n: nat)
    requires |data| > 0 && data[0] < 0x80
    ensures forall k: nat :: !StringAt(data, k, n, item) && !ListAt(data, k, n, item)
  {
    forall k: nat | k <= |data| && k > 0 ensures data[..k][0] == data[0] {
    }
    hide Number;
  }

  /** The announced length of a complete long-form header, with the header's own length,
      leaves the usize range by at least `excess`. */
  predicate Overflows(m: Usize, base: Byte, data: Bytes, excess: nat)
    requires |data| > 0 && base <= data[0] && (base == 0x80 || base == 0xc0)
    requires base == 0x80 ==> data[0] < 0xc0
  {
    var s := SpanOf(m, base, data);
    s.Value? && s.v.header + s.v.len >= m + excess
  }

  /** An item the loop cannot get past: a string whose end wraps around, or a list whose end
      wraps around to exactly zero. */
  predicate Stalls(m: Usize, data: Bytes)
    requires |data| > 0
  {
    || (0x80 <= data[0] < 0xc0 && Overflows(m, 0x80, data, 0))
    || (0xc0 <= data[0] && Overflows(m, 0xc0, data, 0) && !Overflows(m, 0xc0, data, 1))
  }

  /** On every other input the loop advances or reports a malformed item. */
  lemma StuckExactlyOnOverflow(m: Usize, data: Bytes)
    requires |data| > 0
    ensures
      var r := DecodeItem(m, data);
      (r.Aborted? || (r.Value? && r.v.1 == 0)) <==> Stalls(m, data)
  {
    hide BeUsize;
    if data[0] >= 0x80 {
      var base: Byte := if data[0] < 0xc0 then 0x80 else 0xc0;
      var s := SpanOf(m, base, data);
      if s.Value? {
        WrapsOnce(m, s.v.header, s.v.len);
      }
    }
  }

  /** What is left of a payload once the loop has consumed n items. */
  function After(m: Usize, payload: Bytes, n: nat): Option<Bytes>
    decreases n
  {
    if n == 0 then Some(payload)
    else if |payload| == 0 then None
    else
      match DecodeItem(m, payload)
      case Rejected => None
      case Aborted => None
      case Value((_, consumed)) => if consumed == 0 then None else After(m, payload[consumed..], n - 1)
  }

  /** The loop gets to an item it cannot get past. */
  ghost predicate LoopStalls(m: Usize, payload: Bytes) {
    exists n: nat ::
      var rest := After(m, payload, n);
      rest.Some? && |rest.value| > 0 && Stalls(m, rest.value)
  }

  lemma {:induction false} LoopAbortsExactly(m: Usize, payload: Bytes)
    ensures DecodeItems(m, payload).Aborted? <==> LoopStalls(m, payload)
    decreases |payload|
  {
    if |payload| > 0 {
      StuckExactlyOnOverflow(m, payload);
      var first := DecodeItem(m, payload);
      hide DecodeItem, Stalls;
      if first.Value? && first.v.1 > 0 {
        var rest := payload[first.v.1..];
        LoopAbortsExactly(m, rest);
        AfterFirst(m, payload);
      } else {
        assert After(m, payload, 0) == Some(payload);
        assert forall n: nat :: n > 0 ==> After(m, payload, n).None?;
      }
    } else {
      assert forall n: nat :: After(m, payload, n) == if n == 0 then Some(payload) else None;
    }
  }

  lemma AfterFirst(m: Usize, payload: Bytes)
    requires |payload| > 0 && DecodeItem(m, payload).Value? && DecodeItem(m, payload).v.1 > 0 && !Stalls(m, payload)
    ensures LoopStalls(m, payload) <==> LoopStalls(m, payload[DecodeItem(m, payload).v.1..])
  {
    hide DecodeItem, Stalls;
    var rest := payload[DecodeItem(m, payload).v.1..];
    assert forall n: nat :: n > 0 ==> After(m, payload, n) == After(m, rest, n - 1);
    if LoopStalls(m, rest) {
      var n: nat :| After(m, rest, n).Some? && |After(m, rest, n).value| > 0 && Stalls(m, After(m, rest, n).value);
      assert After(m, payload, n + 1) == After(m, rest, n);
    }
  }

  /** `rlp_decode_list` panics or never returns exactly when the end announced by a complete
      outer header wraps around, or the loop over the payload gets to an item it cannot get
      past. */
  lemma ListAbortsExactly(m: Usize, data: Bytes)
    ensures DecodeList(m, data).Aborted? <==>
      && |data| > 0 && data[0] >= 0xc0
      && (Overflows(m, 0xc0, data, 0) || (ListPayload(m, data).Value? && LoopStalls(m, ListPayload(m, data).v)))
  {
    hide BeUsize, LoopStalls, DecodeItems;
    if |data| > 0 && data[0] >= 0xc0 {
      var s := SpanOf(m, 0xc0, data);
      if s.Value? {
        WrapsOnce(m, s.v.header, s.v.len);
      }
    }
    if ListPayload(m, data).Value? {
      LoopAbortsExactly(m, ListPayload(m, data).v);
    }
  }

  lemma WrapsOnce(m: Usize, header: nat, len: nat)
    requires header <= 9 && len < m
    ensures (header + len) % m == if header + len < m then header + len else header + len - m
  {
  }

  /** Such an input exists: five bytes on a 32-bit machine. */
  lemma LoopCanStall()
    ensures DecodeItem(0x1_0000_0000, [0xfb, 0xff, 0xff, 0xff, 0xfb]) == Value(([], 0))
    ensures DecodeList(0x1_0000_0000, [0xc5, 0xfb, 0xff, 0xff, 0xff, 0xfb]) == Aborted
  {
    var m: Usize := 0x1_0000_0000;
    var item: Bytes := [0xfb, 0xff, 0xff, 0xff, 0xfb];
    var len: Bytes := [0xff, 0xff, 0xff, 0xfb];
    assert item[1..5] == len;
    assert len[..3] == [0xff, 0xff, 0xff] && len[..3][..2] == [0xff, 0xff] && len[..3][..2][..1] == [0xff];
    assert BeUsize(m, len[..3][..2][..1]) == 0xff;
    assert BeUsize(m, len[..3][..2]) == 0xffff;
    assert BeUsize(m, len[..3]) == 0xff_ffff;
    assert BeUsize(m, len) == 0xffff_fffb;
    assert item[..0] == [];
    var data: Bytes := [0xc5, 0xfb, 0xff, 0xff, 0xff, 0xfb];
    assert data[1..6] == item;
  }

  // ---------- How short an encoding can be ----------

  /** An item of a short input that is not a list takes at least its minimal encoding, and
      exactly that when it takes no more. A list is returned as it stands. */
  lemma ItemLength(m: Usize, data: Bytes)
    requires 0 < |data| <= 55 && DecodeItem(m, data).Value?
    ensures
      var (item, consumed) := DecodeItem(m, data).v;
      && (data[0] < 0xc0 ==>
            && |EncodeString(item)| <= consumed
            && (consumed == |EncodeString(item)| ==> data[..consumed] == EncodeString(item)))
      && (data[0] >= 0xc0 ==> data[..consumed] == item)
  {
    hide BeUsize;
    if 0x80 <= data[0] < 0xc0 {
      var s := SpanOf(m, 0x80, data).v;
      WrapsOnce(m, s.header, s.len);
    }
  }

  /** The last item of a payload reads as itself and ends where the payload ends; each item
      before it takes a byte or more. */
  lemma {:induction false} LastItem(m: Usize, payload: Bytes) returns (at: nat)
    requires DecodeItems(m, payload).Value? && |DecodeItems(m, payload).v| > 0
    ensures
      var items := DecodeItems(m, payload).v;
      && |items| - 1 <= at < |payload|
      && DecodeItem(m, payload[at..]) == Value((items[|items| - 1], |payload| - at))
    decreases |payload|
  {
    var consumed := DecodeItem(m, payload).v.1;
    hide DecodeItem;
    var rest := payload[consumed..];
    if |DecodeItems(m, rest).v| == 0 {
      at := 0;
      assert payload[0..] == payload;
    } else {
      var further := LastItem(m, rest);
      at := consumed + further;
      assert rest[further..] == payload[at..];
    }
  }
}
