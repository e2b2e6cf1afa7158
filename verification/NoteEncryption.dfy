/** Note encryption: a hash keystream with a hash MAC over an X25519 shared secret, the note
    plaintext and the container for recipient and compliance oracle. */
module NoteEncryption {
  import opened ByteStrings

  const ENCRYPTION_OVERHEAD: nat := 64
  const NOTE_SIZE: nat := 136

  /** b"obscura-enc-v1", b"mac", b"ks" */
  const TAG_KEY: Bytes := [111, 98, 115, 99, 117, 114, 97, 45, 101, 110, 99, 45, 118, 49]
  const TAG_MAC: Bytes := [109, 97, 99]
  const TAG_STREAM: Bytes := [107, 115]

  /** X25519: public keys and shared secrets. */
  datatype Curve = Curve(publicKey: Digest -> Digest, shared: (Digest, Digest) -> Digest)

  // ---------- Exclusive or ----------

  function XorBits(a: nat, b: nat, bits: nat): (r: nat)
    ensures r < Pow2(bits)
    decreases bits
  {
    if bits == 0 then 0 else (a + b) % 2 + 2 * XorBits(a / 2, b / 2, bits - 1)
  }

  function Xor(a: Byte, b: Byte): Byte {
    assert Pow2(8) == 256;
    XorBits(a, b, 8)
  }

  lemma {:induction false} XorBitsTwice(a: nat, k: nat, bits: nat)
    requires a < Pow2(bits)
    ensures XorBits(XorBits(a, k, bits), k, bits) == a
    decreases bits
  {
    if bits > 0 {
      XorBitsTwice(a / 2, k / 2, bits - 1);
      HalfOfSum(XorBits(a, k, bits), XorBits(a / 2, k / 2, bits - 1), (a + k) % 2);
      ParityTwice(a, k, XorBits(a, k, bits));
    }
  }

  lemma ParityTwice(a: nat, k: nat, x: nat)
    requires x % 2 == (a + k) % 2
    ensures (x + k) % 2 == a % 2
  {
  }

  lemma XorTwice(a: Byte, k: Byte)
    ensures Xor(Xor(a, k), k) == a
  {
    assert Pow2(8) == 256;
    XorBitsTwice(a, k, 8);
  }

  function Bit(n: nat, i: nat): nat {
    n / Pow2(i) % 2
  }

  /** x is the exclusive or of a and k: a bit of it is set where exactly one of theirs is. */
  ghost predicate BitwiseXor(x: Byte, a: Byte, k: Byte) {
    forall i: nat :: i < 8 ==> (Bit(x, i) == 1 <==> Bit(a, i) != Bit(k, i))
  }

  lemma LowBitApart(a: nat, k: nat, bits: nat)
    requires bits > 0
    ensures XorBits(a, k, bits) % 2 == (a + k) % 2 && XorBits(a, k, bits) / 2 == XorBits(a / 2, k / 2, bits - 1)
  {
    HalfOfSum(XorBits(a, k, bits), XorBits(a / 2, k / 2, bits - 1), (a + k) % 2);
  }

  lemma HalfBit(n: nat, i: nat)
    ensures Bit(n, i + 1) == Bit(n / 2, i)
  {
    DivTwice(n, 2, Pow2(i));
  }

  lemma LowestBit(n: nat)
    ensures Bit(n, 0) == n % 2
  {
  }

  lemma ParityOfSum(a: nat, k: nat)
    ensures (a + k) % 2 == 1 <==> a % 2 != k % 2
  {
  }

  lemma {:induction false} XorBitAt(a: nat, k: nat, bits: nat, i: nat)
    requires i < bits
    ensures Bit(XorBits(a, k, bits), i) == 1 <==> Bit(a, i) != Bit(k, i)
    decreases bits
  {
    hide Bit, XorBits;
    var x := XorBits(a, k, bits);
    LowBitApart(a, k, bits);
    if i == 0 {
      ParityOfSum(a, k);
      LowestBit(a);
      LowestBit(k);
      LowestBit(x);
    } else {
      HalfBit(a, i - 1);
      HalfBit(k, i - 1);
      HalfBit(x, i - 1);
      XorBitAt(a / 2, k / 2, bits - 1, i - 1);
    }
  }

  lemma {:induction false} BitsDetermine(x: nat, y: nat, bits: nat)
    requires x < Pow2(bits) && y < Pow2(bits)
    requires forall i: nat :: i < bits ==> Bit(x, i) == Bit(y, i)
    ensures x == y
    decreases bits
  {
    hide Bit;
    if bits > 0 {
      forall i: nat | i < bits - 1 ensures Bit(x / 2, i) == Bit(y / 2, i) {
        HalfBit(x, i);
        HalfBit(y, i);
      }
      LowestBit(x);
      LowestBit(y);
      BitsDetermine(x / 2, y / 2, bits - 1);
    }
  }

  lemma BitValues(n: nat, i: nat)
    ensures Bit(n, i) == 0 || Bit(n, i) == 1
  {
  }

  /** Nothing else is the exclusive or. */
  lemma XorExactly(x: Byte, a: Byte, k: Byte)
    ensures x == Xor(a, k) <==> BitwiseXor(x, a, k)
  {
    hide Bit;
    assert Pow2(8) == 256;
    forall i: nat | i < 8 ensures Bit(Xor(a, k), i) == 1 <==> Bit(a, i) != Bit(k, i) {
      XorBitAt(a, k, 8, i);
    }
    hide Xor, Pow2;
    if BitwiseXor(x, a, k) {
      forall i: nat | i < 8 ensures Bit(x, i) == Bit(Xor(a, k), i) {
        BitValues(x, i);
        BitValues(Xor(a, k), i);
      }
      BitsDetermine(x, Xor(a, k), 8);
    }
  }

  // ---------- The stream cipher ----------

  /** Keystream block i; the counter is one byte. */
  function Block(sha: HashFn, key: Digest, i: nat): Digest {
    sha(TAG_STREAM + key.bytes + [i % 256])
  }

  /** Byte j of the keystream comes from block (j / 32) mod 256. */
  function KeyByte(sha: HashFn, key: Digest, j: nat): Byte {
    Block(sha, key, j / 32).bytes[j % 32]
  }

  function StreamXor(sha: HashFn, data: Bytes, key: Digest): (r: Bytes)
    ensures |r| == |data|
    decreases |data|
  {
    if |data| == 0 then []
    else
      var n := |data| - 1;
      StreamXor(sha, data[..n], key) + [Xor(data[n], KeyByte(sha, key, n))]
  }

  lemma {:induction false} StreamXorAt(sha: HashFn, data: Bytes, key: Digest, j: nat)
    requires j < |data|
    ensures StreamXor(sha, data, key)[j] == Xor(data[j], KeyByte(sha, key, j))
    decreases |data|
  {
    if j < |data| - 1 {
      StreamXorAt(sha, data[..|data| - 1], key, j);
    }
  }

  /** out is data under the keystream of key: byte j goes with byte j mod 32 of the hash of
      "ks", the key and the low byte of j / 32. */
  ghost predicate Masked(sha: HashFn, out: Bytes, data: Bytes, key: Bytes) {
    && |out| == |data|
    && forall j: nat :: j < |data| ==> BitwiseXor(out[j], data[j], sha([107, 115] + key + [j / 32 % 256]).bytes[j % 32])
  }

  /** The cipher in bytes and bits. */
  lemma StreamXorExactly(sha: HashFn, out: Bytes, data: Bytes, key: Digest)
    ensures out == StreamXor(sha, data, key) <==> Masked(sha, out, data, key.bytes)
  {
    forall j: nat | j < |data| && j < |out|
      ensures out[j] == StreamXor(sha, data, key)[j] <==>
        BitwiseXor(out[j], data[j], sha([107, 115] + key.bytes + [j / 32 % 256]).bytes[j % 32])
    {
      StreamXorAt(sha, data, key, j);
      hide StreamXor, Xor, BitwiseXor;
      XorExactly(out[j], data[j], KeyByte(sha, key, j));
    }
    hide StreamXor, Xor, BitwiseXor;
  }

  /** `stream_xor`: block by block, with a one-byte block counter that wraps. */
  method StreamXorLoop(sha: HashFn, data: Bytes, key: Digest) returns (out: Bytes)
    ensures out == StreamXor(sha, data, key)
  {
    hide StreamXor;
    out := [];
    var blockIdx: Byte := 0;
    var remaining := |data|;
    var offset := 0;
    while remaining > 0
      invariant 0 <= offset && 0 <= remaining && offset + remaining == |data|
      invariant remaining > 0 ==> offset % 32 == 0 && blockIdx == (offset / 32) % 256
      invariant out == StreamXor(sha, data, key)[..offset]
    {
      var take := if remaining < 32 then remaining else 32;
      out := XorBlock(sha, data, key, blockIdx, offset, take, out);
      offset := offset + take;
      remaining := remaining - take;
      blockIdx := (blockIdx + 1) % 256;
    }
  }

  /** One block of keystream against the next `take` bytes. */
  method XorBlock(
    sha: HashFn, data: Bytes, key: Digest, blockIdx: Byte, offset: nat, take: nat, before: Bytes) returns (out: Bytes)
    requires offset % 32 == 0 && blockIdx == (offset / 32) % 256 && take <= 32 && offset + take <= |data|
    requires before == StreamXor(sha, data, key)[..offset]
    ensures out == StreamXor(sha, data, key)[..offset + take]
  {
    hide StreamXor, Xor;
    out := before;
    var block := sha(TAG_STREAM + key.bytes + [blockIdx]);
    assert block == Block(sha, key, offset / 32);
    for i := 0 to take
      invariant out == StreamXor(sha, data, key)[..offset + i]
    {
      StreamXorAt(sha, data, key, offset + i);
      SameBlock(offset, i);
      out := out + [Xor(data[offset + i], block.bytes[i])];
    }
  }

  lemma SameBlock(offset: nat, i: nat)
    requires offset % 32 == 0 && i < 32
    ensures (offset + i) / 32 == offset / 32 && (offset + i) % 32 == i
  {
  }

  /** Encrypting twice with one key gives the data back, at every length. */
  lemma StreamXorTwice(sha: HashFn, data: Bytes, key: Digest)
    ensures StreamXor(sha, StreamXor(sha, data, key), key) == data
  {
    hide StreamXor, KeyByte, Xor;
    var once := StreamXor(sha, data, key);
    forall j: nat | j < |data| ensures StreamXor(sha, once, key)[j] == data[j] {
      StreamXorAt(sha, once, key, j);
      StreamXorAt(sha, data, key, j);
      XorTwice(data[j], KeyByte(sha, key, j));
    }
  }

  // ---------- Encryption ----------

  function DeriveKey(sha: HashFn, shared: Digest, ephPk: Digest): Digest {
    sha(TAG_KEY + shared.bytes + ephPk.bytes)
  }

  function MacInput(key: Digest, ciphertext: Bytes): Bytes {
    TAG_MAC + key.bytes + ciphertext
  }

  /** `encrypt_note`, with the ephemeral secret it draws as an argument. */
  function EncryptNote(sha: HashFn, c: Curve, plaintext: Bytes, recipientPk: Digest, ephSk: Digest): (blob: Bytes)
    ensures |blob| == ENCRYPTION_OVERHEAD + |plaintext|
  {
    var ephPk := c.publicKey(ephSk);
    var key := DeriveKey(sha, c.shared(ephSk, recipientPk), ephPk);
    var ciphertext := StreamXor(sha, plaintext, key);
    ephPk.bytes + sha(MacInput(key, ciphertext)).bytes + ciphertext
  }

  datatype DecryptError =
    | TooShort | MacMismatch | ContentTooShort | NoteTooShort | TruncatedRecipient | TruncatedCompliance

  /** The key a secret key derives from a blob. */
  function BlobKey(sha: HashFn, c: Curve, blob: Bytes, sk: Digest): Digest
    requires |blob| >= ENCRYPTION_OVERHEAD
  {
    DeriveKey(sha, c.shared(sk, Digest(blob[..32])), Digest(blob[..32]))
  }

  /** `decrypt_note` */
  function DecryptNote(sha: HashFn, c: Curve, blob: Bytes, sk: Digest): Result<Bytes, DecryptError> {
    if |blob| < ENCRYPTION_OVERHEAD then Err(TooShort)
    else
      var key, ciphertext := BlobKey(sha, c, blob, sk), blob[64..];
      if sha(MacInput(key, ciphertext)) != Digest(blob[32..64]) then Err(MacMismatch)
      else Ok(StreamXor(sha, ciphertext, key))
  }

  /** The key of a blob: the hash of "obscura-enc-v1", the shared secret and the ephemeral
      public key. */
  function KeyInBytes(sha: HashFn, shared: Digest, ephPk: Bytes): Bytes {
    sha([111, 98, 115, 99, 117, 114, 97, 45, 101, 110, 99, 45, 118, 49] + shared.bytes + ephPk).bytes
  }

  /** An encrypted note in bytes: the ephemeral public key, the hash of "mac", key and
      ciphertext, and the masked plaintext. */
  lemma EncryptExactly(sha: HashFn, c: Curve, blob: Bytes, plaintext: Bytes, recipientPk: Digest, ephSk: Digest)
    ensures
      var ephPk := c.publicKey(ephSk).bytes;
      var key := KeyInBytes(sha, c.shared(ephSk, recipientPk), ephPk);
      blob == EncryptNote(sha, c, plaintext, recipientPk, ephSk) <==>
      && |blob| >= 64 && blob[..32] == ephPk
      && blob[32..64] == sha([109, 97, 99] + key + blob[64..]).bytes
      && Masked(sha, blob[64..], plaintext, key)
  {
    var key := DeriveKey(sha, c.shared(ephSk, recipientPk), c.publicKey(ephSk));
    hide StreamXor, Masked;
    if |blob| >= 64 {
      StreamXorExactly(sha, blob[64..], plaintext, key);
      assert blob == blob[..32] + blob[32..64] + blob[64..];
    }
    var made := EncryptNote(sha, c, plaintext, recipientPk, ephSk);
    assert made[..32] == c.publicKey(ephSk).bytes && made[64..] == StreamXor(sha, plaintext, key);
    assert made[32..64] == sha(MacInput(key, made[64..])).bytes;
  }

  /** And what a key makes of any blob: nothing when it is short or its MAC does not match,
      and else the unmasked ciphertext. */
  lemma DecryptExactly(sha: HashFn, c: Curve, blob: Bytes, sk: Digest, plaintext: Bytes)
    ensures |blob| < 64 <==> DecryptNote(sha, c, blob, sk) == Err(TooShort)
    ensures |blob| >= 64 ==>
      var key := KeyInBytes(sha, c.shared(sk, Digest(blob[..32])), blob[..32]);
      var macFits := blob[32..64] == sha([109, 97, 99] + key + blob[64..]).bytes;
      && (!macFits <==> DecryptNote(sha, c, blob, sk) == Err(MacMismatch))
      && (DecryptNote(sha, c, blob, sk) == Ok(plaintext) <==> macFits && Masked(sha, plaintext, blob[64..], key))
  {
    hide StreamXor, Masked;
    if |blob| >= 64 {
      StreamXorExactly(sha, plaintext, blob[64..], BlobKey(sha, c, blob, sk));
    }
  }

  /** What is encrypted to a key decrypts with its secret, given that Diffie-Hellman commutes
      for the two secrets. */
  lemma DecryptUndoesEncrypt(sha: HashFn, c: Curve, plaintext: Bytes, sk: Digest, ephSk: Digest)
    requires c.shared(ephSk, c.publicKey(sk)) == c.shared(sk, c.publicKey(ephSk))
    ensures DecryptNote(sha, c, EncryptNote(sha, c, plaintext, c.publicKey(sk), ephSk), sk) == Ok(plaintext)
  {
    var ephPk := c.publicKey(ephSk);
    var key := DeriveKey(sha, c.shared(ephSk, c.publicKey(sk)), ephPk);
    var ciphertext := StreamXor(sha, plaintext, key);
    var blob := EncryptNote(sha, c, plaintext, c.publicKey(sk), ephSk);
    StreamXorTwice(sha, plaintext, key);
    hide StreamXor, DeriveKey, MacInput;
    assert blob[..32] == ephPk.bytes;
    assert blob[32..64] == sha(MacInput(key, ciphertext)).bytes;
    assert blob[64..] == ciphertext;
  }

  /** The MAC inputs that a secret key other than the receiver's needs to collide. */
  function MacInputs(sha: HashFn, c: Curve, plaintext: Bytes, pk: Digest, ephSk: Digest, sk: Digest): (Bytes, Bytes) {
    var key := DeriveKey(sha, c.shared(ephSk, pk), c.publicKey(ephSk));
    var ciphertext := StreamXor(sha, plaintext, key);
    (MacInput(key, ciphertext), MacInput(BlobKey(sha, c, EncryptNote(sha, c, plaintext, pk, ephSk), sk), ciphertext))
  }

  /** Whatever secret key is tried, on a curve of any kind: what was encrypted decrypts to the
      plaintext or fails its MAC, or the two MAC inputs collide. */
  lemma AnyKeyOpensOrFails(sha: HashFn, c: Curve, plaintext: Bytes, pk: Digest, ephSk: Digest, sk: Digest)
    ensures
      || DecryptNote(sha, c, EncryptNote(sha, c, plaintext, pk, ephSk), sk) in {Ok(plaintext), Err(MacMismatch)}
      || Collision(sha, MacInputs(sha, c, plaintext, pk, ephSk, sk))
  {
    var key := DeriveKey(sha, c.shared(ephSk, pk), c.publicKey(ephSk));
    var ciphertext := StreamXor(sha, plaintext, key);
    var blob := EncryptNote(sha, c, plaintext, pk, ephSk);
    var tried := BlobKey(sha, c, blob, sk);
    StreamXorTwice(sha, plaintext, key);
    assert MacInput(key, ciphertext)[3..35] == key.bytes && MacInput(tried, ciphertext)[3..35] == tried.bytes;
    assert blob[32..64] == sha(MacInput(key, ciphertext)).bytes && blob[64..] == ciphertext;
    hide StreamXor, DeriveKey, MacInput, BlobKey;
    assert tried == key || MacInput(key, ciphertext) != MacInput(tried, ciphertext);
  }

  /** The MAC fixes the ciphertext: two blobs with one header that both decrypt under a key
      are the same blob, or their MAC inputs collide. */
  lemma TamperedCiphertextIsRejected(sha: HashFn, c: Curve, blob: Bytes, other: Bytes, sk: Digest)
    requires |blob| >= ENCRYPTION_OVERHEAD && |other| >= ENCRYPTION_OVERHEAD && blob[..64] == other[..64]
    requires DecryptNote(sha, c, blob, sk).Ok? && DecryptNote(sha, c, other, sk).Ok?
    ensures
      var key := BlobKey(sha, c, blob, sk);
      blob == other || Collision(sha, (MacInput(key, blob[64..]), MacInput(key, other[64..])))
  {
    assert blob[..32] == blob[..64][..32] == other[..32];
    assert blob[32..64] == blob[..64][32..] == other[32..64];
    assert blob == blob[..64] + blob[64..] && other == other[..64] + other[64..];
    var key := BlobKey(sha, c, blob, sk);
    hide StreamXor, DeriveKey;
    if MacInput(key, blob[64..]) == MacInput(key, other[64..]) {
      assert MacInput(key, blob[64..])[35..] == blob[64..] && MacInput(key, other[64..])[35..] == other[64..];
    }
  }

  // ---------- The plaintext ----------

  type Memo = m: Bytes | |m| == 64 witness Repeat(0, 64)

  datatype NoteContent = NoteContent(amount: U64, assetId: Digest, salt: Digest, memo: Memo)

  /** amount (8, little endian), asset (32), salt (32), memo (64) */
  function ContentToBytes(n: NoteContent): (r: Bytes)
    ensures |r| == NOTE_SIZE
  {
    Le(n.amount, 8) + n.assetId.bytes + n.salt.bytes + n.memo
  }

  function ContentFromBytes(data: Bytes): Result<NoteContent, DecryptError> {
    if |data| < NOTE_SIZE then Err(ContentTooShort)
    else
      FromLe8(data[0..8]);
      Ok(NoteContent(FromLe(data[0..8]), Digest(data[8..40]), Digest(data[40..72]), data[72..136]))
  }

  lemma {:induction false} FromLeBound(s: Bytes)
    ensures FromLe(s) < Pow256(|s|)
    decreases |s|
  {
    if |s| > 0 {
      FromLeBound(s[1..]);
    }
  }

  lemma FromLe8(s: Bytes)
    requires |s| == 8
    ensures FromLe(s) < U64_MOD
  {
    FromLeBound(s);
    assert Pow256(8) == U64_MOD;
  }

  lemma {:induction false} LeOfFromLe(s: Bytes)
    ensures Le(FromLe(s), |s|) == s
    decreases |s|
  {
    if |s| > 0 {
      LeOfFromLe(s[1..]);
      assert FromLe(s) % 256 == s[0] && FromLe(s) / 256 == FromLe(s[1..]);
      assert s == [s[0]] + s[1..];
    }
  }

  /** Parsing undoes printing, whatever follows the note. */
  lemma ContentRoundTrip(n: NoteContent, rest: Bytes)
    ensures ContentFromBytes(ContentToBytes(n) + rest) == Ok(n)
  {
    assert Pow256(8) == U64_MOD;
    FromLeOfLe(n.amount, 8);
    var amount := Le(n.amount, 8);
    hide Le, FromLe, Pow256;
    var data := ContentToBytes(n) + rest;
    assert data[0..8] == amount && data[8..40] == n.assetId.bytes;
    assert data[40..72] == n.salt.bytes && data[72..136] == n.memo;
  }

  /** And printing undoes parsing: the first 136 bytes carry the whole note. */
  lemma ContentPrintsBack(data: Bytes)
    requires |data| >= NOTE_SIZE
    ensures ContentToBytes(ContentFromBytes(data).value) == data[..NOTE_SIZE]
  {
    FromLe8(data[0..8]);
    LeOfFromLe(data[0..8]);
    hide Le, FromLe;
    assert data[..NOTE_SIZE] == data[0..8] + data[8..40] + data[40..72] + data[72..136];
  }

  /** The 136 bytes of a note, and what of any input they are read from: amount in little
      endian, asset, salt, memo. */
  lemma ContentExactly(data: Bytes, n: NoteContent)
    ensures
      var v := n.amount;
      ContentFromBytes(data) == Ok(n) <==>
      && |data| >= 136
      && data[..8] == [v % 256, v / 0x100 % 256, v / 0x1_0000 % 256, v / 0x100_0000 % 256, v / 0x1_0000_0000 % 256,
           v / 0x100_0000_0000 % 256, v / 0x1_0000_0000_0000 % 256, v / 0x100_0000_0000_0000 % 256]
      && data[8..40] == n.assetId.bytes && data[40..72] == n.salt.bytes && data[72..136] == n.memo
  {
    Le64InBytes(n.amount);
    assert Pow256(8) == U64_MOD;
    FromLeOfLe(n.amount, 8);
    if |data| >= 136 {
      FromLe8(data[0..8]);
      LeOfFromLe(data[0..8]);
    }
    hide Le, FromLe, Pow256;
  }

  // ---------- The container ----------

  datatype EncryptedNote = EncryptedNote(forRecipient: Bytes, forCompliance: Bytes)

  const U16_MOD: nat := 0x1_0000

  /** `to_bytes`: each length is cut down to a u16. */
  function NoteToBytes(n: EncryptedNote): Bytes {
    Le(|n.forRecipient| % U16_MOD, 2) + n.forRecipient + Le(|n.forCompliance| % U16_MOD, 2) + n.forCompliance
  }

  /** `from_bytes` */
  function NoteFromBytes(data: Bytes): Result<EncryptedNote, DecryptError> {
    if |data| < 4 then Err(NoteTooShort)
    else
      var rLen := FromLe(data[0..2]);
      if |data| < 2 + rLen + 2 then Err(TruncatedRecipient)
      else
        var off := 2 + rLen;
        var cLen := FromLe(data[off..off + 2]);
        if |data| < off + 2 + cLen then Err(TruncatedCompliance)
        else Ok(EncryptedNote(data[2..off], data[off + 2..off + 2 + cLen]))
  }

  lemma Le16RoundTrip(n: nat)
    requires n < U16_MOD
    ensures FromLe(Le(n, 2)) == n
  {
    assert Pow256(2) == U16_MOD;
    FromLeOfLe(n, 2);
  }

  lemma ParsedPartsFit(data: Bytes)
    requires NoteFromBytes(data).Ok?
    ensures |NoteFromBytes(data).value.forRecipient| < U16_MOD && |NoteFromBytes(data).value.forCompliance| < U16_MOD
  {
    assert Pow256(2) == U16_MOD;
    var rLen := FromLe(data[0..2]);
    FromLeBound(data[0..2]);
    FromLeBound(data[2 + rLen..2 + rLen + 2]);
    hide FromLe, Pow256;
  }

  lemma FourParts(a: Bytes, b: Bytes, c: Bytes, d: Bytes)
    requires |a| == |c| == 2
    ensures
      var data, off := a + b + c + d, 2 + |b|;
      && data[0..2] == a && data[2..off] == b && data[off..off + 2] == c && data[off + 2..off + 2 + |d|] == d
  {
  }

  lemma ShortNoteParses(n: EncryptedNote)
    requires |n.forRecipient| < U16_MOD && |n.forCompliance| < U16_MOD
    ensures NoteFromBytes(NoteToBytes(n)) == Ok(n)
  {
    hide FromLe, Le;
    Le16RoundTrip(|n.forRecipient|);
    Le16RoundTrip(|n.forCompliance|);
    FourParts(Le(|n.forRecipient|, 2), n.forRecipient, Le(|n.forCompliance|, 2), n.forCompliance);
  }

  /** Parsing undoes printing exactly when both parts are shorter than 65536 bytes. */
  lemma NoteRoundTrip(n: EncryptedNote)
    ensures NoteFromBytes(NoteToBytes(n)) == Ok(n) <==> |n.forRecipient| < U16_MOD && |n.forCompliance| < U16_MOD
  {
    hide NoteFromBytes, NoteToBytes;
    if |n.forRecipient| < U16_MOD && |n.forCompliance| < U16_MOD {
      ShortNoteParses(n);
    } else if NoteFromBytes(NoteToBytes(n)).Ok? {
      ParsedPartsFit(NoteToBytes(n));
    }
  }

  /** The container in bytes, read from any input: two-byte lengths in little endian, each
      ahead of its part; what follows is ignored. */
  lemma NoteExactly(data: Bytes, n: EncryptedNote)
    ensures
      var r, c := |n.forRecipient|, |n.forCompliance|;
      NoteFromBytes(data) == Ok(n) <==>
      && r < 0x1_0000 && c < 0x1_0000 && |data| >= 4 + r + c
      && data[..2] == [r % 256, r / 256] && data[2..2 + r] == n.forRecipient
      && data[2 + r..4 + r] == [c % 256, c / 256] && data[4 + r..4 + r + c] == n.forCompliance
  {
    var r, c := |n.forRecipient|, |n.forCompliance|;
    if |data| >= 4 {
      TwoBytes(data[0..2], r);
      var len := FromLe(data[0..2]);
      if |data| >= 4 + len {
        TwoBytes(data[2 + len..4 + len], c);
      }
    }
    hide FromLe;
  }

  lemma TwoBytes(s: Bytes, n: nat)
    requires |s| == 2
    ensures n < 65536 && s == [n % 256, n / 256] ==> FromLe(s) == n
    ensures FromLe(s) == n ==> n < 65536 && s == [n % 256, n / 256]
  {
    assert FromLe(s[1..]) == s[1] + 256 * FromLe(s[1..][1..]);
  }

  /** `EncryptedNote::create`, with its two ephemeral secrets as arguments. */
  function Create(
    sha: HashFn, c: Curve, n: NoteContent, recipientPk: Digest, oraclePk: Digest, eph1: Digest, eph2: Digest)
    : EncryptedNote
  {
    var plaintext := ContentToBytes(n);
    EncryptedNote(EncryptNote(sha, c, plaintext, recipientPk, eph1), EncryptNote(sha, c, plaintext, oraclePk, eph2))
  }

  function DecryptContent(sha: HashFn, c: Curve, blob: Bytes, sk: Digest): Result<NoteContent, DecryptError> {
    match DecryptNote(sha, c, blob, sk)
    case Ok(plaintext) => ContentFromBytes(plaintext)
    case Err(e) => Err(e)
  }

  /** `try_decrypt`: the recipient's part first, then the oracle's. */
  function TryDecrypt(sha: HashFn, c: Curve, n: EncryptedNote, sk: Digest): Option<NoteContent> {
    match DecryptContent(sha, c, n.forRecipient, sk)
    case Ok(content) => Some(content)
    case Err(_) =>
      match DecryptContent(sha, c, n.forCompliance, sk)
      case Ok(content) => Some(content)
      case Err(_) => None
  }

  /** The pair of MAC inputs a foreign plaintext in one of the two parts would need. */
  function NoteCollision(
    sha: HashFn, c: Curve, n: NoteContent, recipientPk: Digest, oraclePk: Digest, eph1: Digest, eph2: Digest,
    sk: Digest)
    : (Bytes, Bytes)
  {
    var first := MacInputs(sha, c, ContentToBytes(n), recipientPk, eph1, sk);
    if Collision(sha, first) then first else MacInputs(sha, c, ContentToBytes(n), oraclePk, eph2, sk)
  }

  /** Whoever tries a created note, with any secret key, reads that note or nothing, or two MAC
      inputs collide. */
  lemma AnyoneReadsNoteOrNothing(
    sha: HashFn, c: Curve, n: NoteContent, recipientPk: Digest, oraclePk: Digest, eph1: Digest, eph2: Digest,
    sk: Digest)
    ensures
      || TryDecrypt(sha, c, Create(sha, c, n, recipientPk, oraclePk, eph1, eph2), sk) in {None, Some(n)}
      || Collision(sha, NoteCollision(sha, c, n, recipientPk, oraclePk, eph1, eph2, sk))
  {
    hide EncryptNote, DecryptNote, ContentToBytes, ContentFromBytes, MacInputs;
    AnyKeyOpensOrFails(sha, c, ContentToBytes(n), recipientPk, eph1, sk);
    AnyKeyOpensOrFails(sha, c, ContentToBytes(n), oraclePk, eph2, sk);
    ContentRoundTrip(n, []);
    assert ContentToBytes(n) + [] == ContentToBytes(n);
  }

  /** End to end: a note created, printed, parsed and decrypted is the same note, for the
      recipient and for the compliance oracle. The oracle tries the recipient's part first,
      so its `try_decrypt` finds the note or a collision. */
  lemma NoteReachesBothReaders(
    sha: HashFn, c: Curve, n: NoteContent, recipientSk: Digest, oracleSk: Digest, eph1: Digest, eph2: Digest)
    requires c.shared(eph1, c.publicKey(recipientSk)) == c.shared(recipientSk, c.publicKey(eph1))
    requires c.shared(eph2, c.publicKey(oracleSk)) == c.shared(oracleSk, c.publicKey(eph2))
    ensures
      var recipientPk, oraclePk := c.publicKey(recipientSk), c.publicKey(oracleSk);
      var parsed := NoteFromBytes(NoteToBytes(Create(sha, c, n, recipientPk, oraclePk, eph1, eph2)));
      && parsed.Ok?
      && DecryptContent(sha, c, parsed.value.forRecipient, recipientSk) == Ok(n)
      && DecryptContent(sha, c, parsed.value.forCompliance, oracleSk) == Ok(n)
      && TryDecrypt(sha, c, parsed.value, recipientSk) == Some(n)
      && (|| TryDecrypt(sha, c, parsed.value, oracleSk) == Some(n)
          || Collision(sha, NoteCollision(sha, c, n, recipientPk, oraclePk, eph1, eph2, oracleSk)))
  {
    hide Collision, NoteCollision;
    AnyoneReadsNoteOrNothing(sha, c, n, c.publicKey(recipientSk), c.publicKey(oracleSk), eph1, eph2, oracleSk);
    hide EncryptNote, DecryptNote, NoteFromBytes, NoteToBytes, ContentToBytes, ContentFromBytes;
    var note := Create(sha, c, n, c.publicKey(recipientSk), c.publicKey(oracleSk), eph1, eph2);
    NoteRoundTrip(note);
    DecryptUndoesEncrypt(sha, c, ContentToBytes(n), recipientSk, eph1);
    DecryptUndoesEncrypt(sha, c, ContentToBytes(n), oracleSk, eph2);
    ContentRoundTrip(n, []);
    assert ContentToBytes(n) + [] == ContentToBytes(n);
  }
}
