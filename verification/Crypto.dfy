/** internal/steam/crypto/crypto.go: the AES envelope of the channel.

    AES and HMAC-SHA1 are parameters: per key a pair of mutually inverse block
    functions, and any function to 20 bytes. CBC follows NIST SP 800-38A section
    6.2 and the padding RFC 5652 section 6.3. */
module Crypto {
  import opened ByteSeq
  import opened Results

  const BLOCK_SIZE := 16

  type Block = b: Bytes | |b| == BLOCK_SIZE witness seq(16, _ => 0)
  type Mac = b: Bytes | |b| == 20 witness seq(20, _ => 0)
  type Nonce = b: Bytes | |b| == 3 witness [0, 0, 0]

  datatype Primitives = Primitives(
    encrypt: (Bytes, Block) -> Block,
    decrypt: (Bytes, Block) -> Block,
    hmac: (Bytes, Bytes) -> Mac)
  {
    ghost predicate Lawful() {
      && (forall k, b: Block :: decrypt(k, encrypt(k, b)) == b)
      && (forall k, b: Block :: encrypt(k, decrypt(k, b)) == b)
    }
  }

  /** The key lengths aes.NewCipher accepts. */
  predicate GoodKey(key: Bytes) {
    |key| in {16, 24, 32}
  }

  // ---------------------------------------------------------------- padding

  function PadBytes(n: Byte): (b: Bytes)
    ensures |b| == n
  {
    seq(n, _ => n)
  }

  function Padded(data: Bytes): (b: Bytes)
    ensures |b| % BLOCK_SIZE == 0 && |b| > |data|
  {
    data + PadBytes(BLOCK_SIZE - |data| % BLOCK_SIZE)
  }

  function Unpadded(data: Bytes): Outcome<Bytes> {
    if data == [] then Fail else
    var pad := data[|data| - 1];
    if pad == 0 || pad > |data| || pad > BLOCK_SIZE then Fail
    else if data[|data| - pad..] != PadBytes(pad) then Fail
    else Ok(data[..|data| - pad])
  }

  method Pkcs7Pad(data: Bytes) returns (out: Bytes)
    ensures out == Padded(data)
  {
    var pad := BLOCK_SIZE - |data| % BLOCK_SIZE;
    out := data + seq(pad, _ => 0);
    var i := |data|;
    while i < |out|
      invariant |data| <= i <= |out| == |data| + pad
      invariant out[..|data|] == data
      invariant forall j :: |data| <= j < i ==> out[j] == pad
    {
      out := out[i := pad];
      i := i + 1;
    }
    assert out == data + PadBytes(pad);
  }

  method Pkcs7Unpad(data: Bytes) returns (res: Outcome<Bytes>)
    ensures res == Unpadded(data)
  {
    if |data| == 0 { return Fail; }
    var pad := data[|data| - 1];
    if pad == 0 || pad > |data| || pad > BLOCK_SIZE { return Fail; }
    ghost var tail := data[|data| - pad..];
    var i := 0;
    while i < pad
      invariant 0 <= i <= pad
      invariant forall j :: pad - i <= j < pad ==> tail[j] == pad
    {
      if data[|data| - 1 - i] != pad {
        assert tail[pad - 1 - i] != PadBytes(pad)[pad - 1 - i];
        return Fail;
      }
      i := i + 1;
    }
    assert tail == PadBytes(pad);
    return Ok(data[..|data| - pad]);
  }

  lemma PadLength(n: nat, q: nat)
    requires 1 <= q <= BLOCK_SIZE && (n + q) % BLOCK_SIZE == 0
    ensures q == BLOCK_SIZE - n % BLOCK_SIZE
  {
  }

  /** Padding is a bijection onto the well-padded multiples of the block size. */
  lemma PaddingBijection(data: Bytes, padded: Bytes)
    requires |padded| % BLOCK_SIZE == 0
    ensures Unpadded(padded) == Ok(data) <==> padded == Padded(data)
  {
    var p := Padded(data);
    var pad := p[|p| - 1];
    assert p[|p| - pad..] == PadBytes(pad) && p[..|p| - pad] == data;
    if Unpadded(padded) == Ok(data) {
      var q := padded[|padded| - 1];
      assert padded == data + PadBytes(q);
      PadLength(|data|, q);
    }
  }

  // -------------------------------------------------------------------- CBC

  function XorBlock(a: Block, b: Block): Block {
    XorSeq(a, b)
  }

  function CbcEncrypt(p: Primitives, key: Bytes, iv: Block, data: Bytes): (c: Bytes)
    requires |data| % BLOCK_SIZE == 0
    ensures |c| == |data|
    decreases |data|
  {
    if data == [] then [] else
    var x := p.encrypt(key, XorBlock(data[..BLOCK_SIZE], iv));
    x + CbcEncrypt(p, key, x, data[BLOCK_SIZE..])
  }

  function CbcDecrypt(p: Primitives, key: Bytes, iv: Block, data: Bytes): (d: Bytes)
    requires |data| % BLOCK_SIZE == 0
    ensures |d| == |data|
    decreases |data|
  {
    if data == [] then [] else
    var x := data[..BLOCK_SIZE];
    XorBlock(p.decrypt(key, x), iv) + CbcDecrypt(p, key, x, data[BLOCK_SIZE..])
  }

  lemma {:induction false} CbcInverse(p: Primitives, key: Bytes, iv: Block, data: Bytes)
    requires p.Lawful() && |data| % BLOCK_SIZE == 0
    ensures CbcDecrypt(p, key, iv, CbcEncrypt(p, key, iv, data)) == data
    decreases |data|
  {
    if data != [] {
      hide XorBlock;
      var b, rest := data[..BLOCK_SIZE], data[BLOCK_SIZE..];
      var x := p.encrypt(key, XorBlock(b, iv));
      var c := CbcEncrypt(p, key, iv, data);
      assert c[..BLOCK_SIZE] == x && c[BLOCK_SIZE..] == CbcEncrypt(p, key, x, rest);
      CbcInverse(p, key, x, rest);
      XorBlockInvolution(b, iv);
      assert data == b + rest;
    }
  }

  lemma {:induction false} CbcOnto(p: Primitives, key: Bytes, iv: Block, data: Bytes)
    requires p.Lawful() && |data| % BLOCK_SIZE == 0
    ensures CbcEncrypt(p, key, iv, CbcDecrypt(p, key, iv, data)) == data
    decreases |data|
  {
    if data != [] {
      hide XorBlock;
      var x, rest := data[..BLOCK_SIZE], data[BLOCK_SIZE..];
      var b := XorBlock(p.decrypt(key, x), iv);
      var d := CbcDecrypt(p, key, iv, data);
      assert d[..BLOCK_SIZE] == b && d[BLOCK_SIZE..] == CbcDecrypt(p, key, x, rest);
      XorBlockInvolution(p.decrypt(key, x), iv);
      CbcOnto(p, key, x, rest);
      assert data == x + rest;
    }
  }

  /** The i-th block. */
  function BlockAt(data: Bytes, i: nat): Block
    requires |data| % BLOCK_SIZE == 0 && i < |data| / BLOCK_SIZE
  {
    data[16 * i..16 * i + 16]
  }

  /** SP 800-38A section 6.2, block by block: each block is combined with the
      ciphertext block before it, the first with the IV, and then encrypted. */
  lemma {:induction false} CbcBlocks(p: Primitives, key: Bytes, iv: Block, data: Bytes, i: nat)
    requires |data| % BLOCK_SIZE == 0 && i < |data| / BLOCK_SIZE
    ensures var c := CbcEncrypt(p, key, iv, data);
            BlockAt(c, i) == p.encrypt(key, XorBlock(BlockAt(data, i), if i == 0 then iv else BlockAt(c, i - 1)))
    decreases i
  {
    hide XorBlock;
    var b, rest := data[..BLOCK_SIZE], data[BLOCK_SIZE..];
    var x := p.encrypt(key, XorBlock(b, iv));
    var more := CbcEncrypt(p, key, x, rest);
    assert data == b + rest && CbcEncrypt(p, key, iv, data) == x + more;
    hide CbcEncrypt, BlockAt;
    BlockBehind(b, rest, i);
    BlockBehind(x, more, i);
    if i > 0 {
      CbcBlocks(p, key, x, rest, i - 1);
      BlockBehind(x, more, i - 1);
    }
  }

  lemma BlockBehind(b: Block, rest: Bytes, i: nat)
    requires |rest| % BLOCK_SIZE == 0 && i <= |rest| / BLOCK_SIZE
    ensures |b + rest| % BLOCK_SIZE == 0 && |b + rest| / BLOCK_SIZE == |rest| / BLOCK_SIZE + 1
    ensures BlockAt(b + rest, i) == if i == 0 then b else BlockAt(rest, i - 1)
  {
  }

  lemma XorBlockInvolution(a: Block, b: Block)
    ensures XorBlock(XorBlock(a, b), b) == a
  {
    XorSeqInvolution(a, b);
  }

  // --------------------------------------------------------------- envelope

  /** AES-ECB(iv) || AES-CBC(pad(message), iv). */
  function SymmetricEncryptWithIV(p: Primitives, message: Bytes, key: Bytes, iv: Bytes): Outcome<Bytes> {
    if |iv| != BLOCK_SIZE || !GoodKey(key) then Fail
    else Ok(p.encrypt(key, iv) + CbcEncrypt(p, key, iv, Padded(message)))
  }

  function SymmetricDecryptIV(p: Primitives, ciphertext: Bytes, key: Bytes): Outcome<Block> {
    if |ciphertext| < BLOCK_SIZE || !GoodKey(key) then Fail
    else Ok(p.decrypt(key, ciphertext[..BLOCK_SIZE]))
  }

  function SymmetricDecryptWithIV(p: Primitives, ciphertext: Bytes, key: Bytes, iv: Block): Outcome<Bytes> {
    if |ciphertext| < BLOCK_SIZE then Fail else
    var body := ciphertext[BLOCK_SIZE..];
    if |body| == 0 || |body| % BLOCK_SIZE != 0 || !GoodKey(key) then Fail
    else Unpadded(CbcDecrypt(p, key, iv, body))
  }

  function SymmetricDecrypt(p: Primitives, ciphertext: Bytes, key: Bytes): Outcome<Bytes> {
    match SymmetricDecryptIV(p, ciphertext, key)
    case Ok(iv) => SymmetricDecryptWithIV(p, ciphertext, key, iv)
    case _ => Fail
  }

  /** The IV of the authenticated variant: 13 bytes of MAC, then the prefix. */
  function MacIV(p: Primitives, secret: Bytes, prefix: Nonce, message: Bytes): Block {
    p.hmac(secret, prefix + message)[..13] + prefix
  }

  /** prefix is what rand.Read filled in. */
  function SymmetricEncryptHMAC(p: Primitives, message: Bytes, key: Bytes, secret: Bytes, prefix: Nonce): Outcome<Bytes> {
    SymmetricEncryptWithIV(p, message, key, MacIV(p, secret, prefix, message))
  }

  function SymmetricDecryptHMAC(p: Primitives, ciphertext: Bytes, key: Bytes, secret: Bytes): Outcome<Bytes> {
    match SymmetricDecryptIV(p, ciphertext, key)
    case Fail => Fail
    case Crash => Crash
    case Ok(iv) =>
      match SymmetricDecryptWithIV(p, ciphertext, key, iv)
      case Fail => Fail
      case Crash => Crash
      case Ok(message) =>
        var mac := p.hmac(secret, iv[13..] + message);
        if iv[..13] != mac[..13] then Fail else Ok(message)
  }

  /** Decryption with an explicit IV accepts a ciphertext exactly when it is the
      encryption of its result under that IV (after any first block). */
  lemma DecryptWithIVExact(p: Primitives, c: Bytes, key: Bytes, iv: Block, m: Bytes)
    requires p.Lawful() && GoodKey(key) && |c| >= BLOCK_SIZE
    ensures SymmetricDecryptWithIV(p, c, key, iv) == Ok(m)
            <==> c[BLOCK_SIZE..] == CbcEncrypt(p, key, iv, Padded(m))
  {
    hide Padded, Unpadded, CbcEncrypt, CbcDecrypt;
    var body := c[BLOCK_SIZE..];
    CbcInverse(p, key, iv, Padded(m));
    if |body| % BLOCK_SIZE == 0 {
      CbcOnto(p, key, iv, body);
      PaddingBijection(m, CbcDecrypt(p, key, iv, body));
    }
  }

  /** The plain envelope is exact: it accepts c with result m if and only if c is
      the encryption of m under the IV its first block hides. */
  lemma EnvelopeExact(p: Primitives, c: Bytes, key: Bytes, m: Bytes, iv: Block)
    requires p.Lawful() && GoodKey(key)
    ensures SymmetricDecryptIV(p, c, key) == Ok(iv) && SymmetricDecrypt(p, c, key) == Ok(m)
            <==> SymmetricEncryptWithIV(p, m, key, iv) == Ok(c)
  {
    hide CbcEncrypt, CbcDecrypt, Padded, Unpadded;
    var e := p.encrypt(key, iv) + CbcEncrypt(p, key, iv, Padded(m));
    assert e[..BLOCK_SIZE] == p.encrypt(key, iv) && e[BLOCK_SIZE..] == CbcEncrypt(p, key, iv, Padded(m));
    if |c| >= BLOCK_SIZE {
      assert c == c[..BLOCK_SIZE] + c[BLOCK_SIZE..];
      DecryptWithIVExact(p, c, key, iv, m);
    }
  }

  /** The authenticated envelope is exact: it accepts c with result m if and only
      if c is what encrypting m produces for some prefix, and that prefix is the
      tail of the recovered IV. */
  lemma AuthenticatedEnvelopeExact(p: Primitives, c: Bytes, key: Bytes, secret: Bytes, m: Bytes, prefix: Nonce)
    requires p.Lawful() && GoodKey(key)
    ensures SymmetricEncryptHMAC(p, m, key, secret, prefix) == Ok(c)
            <==> SymmetricDecryptHMAC(p, c, key, secret) == Ok(m)
                 && SymmetricDecryptIV(p, c, key).value[13..] == prefix
  {
    hide SymmetricEncryptWithIV, SymmetricDecryptWithIV;
    var iv := MacIV(p, secret, prefix, m);
    assert iv[..13] == p.hmac(secret, prefix + m)[..13] && iv[13..] == prefix;
    EnvelopeExact(p, c, key, m, iv);
    if SymmetricDecryptIV(p, c, key).Ok? {
      var got := SymmetricDecryptIV(p, c, key).value;
      assert got == got[..13] + got[13..];
    }
  }

  /** RFC 5652 section 6.3: one to sixteen bytes are added, each the number of them. */
  lemma PaddedShape(data: Bytes)
    ensures var p, n := Padded(data), 16 - |data| % 16;
            && |p| == |data| + n && |p| % 16 == 0 && 1 <= n <= 16 && p[..|data|] == data
            && forall j :: |data| <= j < |p| ==> p[j] == n
  {
  }

  /** What the envelope is made of: the encrypted IV, then the CBC blocks of the
      padded message; and the IV of the authenticated one is thirteen bytes of the
      MAC over prefix and message, and the prefix. */
  lemma EnvelopeLayout(p: Primitives, m: Bytes, key: Bytes, secret: Bytes, iv: Block, prefix: Nonce)
    requires p.Lawful() && GoodKey(key)
    ensures SymmetricEncryptWithIV(p, m, key, iv) == Ok(p.encrypt(key, iv) + CbcEncrypt(p, key, iv, Padded(m)))
    ensures var c := SymmetricEncryptHMAC(p, m, key, secret, prefix);
            && c.Ok? && |c.value| >= 16
            && p.decrypt(key, c.value[..16]) == p.hmac(secret, prefix + m)[..13] + prefix
            && c == SymmetricEncryptWithIV(p, m, key, p.decrypt(key, c.value[..16]))
  {
    hide CbcEncrypt, Padded;
    var v := p.hmac(secret, prefix + m)[..13] + prefix;
    var c := SymmetricEncryptHMAC(p, m, key, secret, prefix).value;
    assert c == p.encrypt(key, v) + CbcEncrypt(p, key, v, Padded(m));
    assert c[..16] == p.encrypt(key, v);
  }

  /** AES has keys of 128, 192 and 256 bits; any other is refused. */
  lemma KeyLengths(p: Primitives, m: Bytes, c: Bytes, key: Bytes, iv: Block)
    ensures SymmetricEncryptWithIV(p, m, key, iv).Ok? <==> |key| == 16 || |key| == 24 || |key| == 32
    ensures SymmetricDecryptIV(p, c, key).Ok? <==> |c| >= 16 && (|key| == 16 || |key| == 24 || |key| == 32)
  {
    hide CbcEncrypt, Padded;
  }

  /** Round trip of the authenticated envelope, for every message and prefix. */
  lemma HMACRoundTrip(p: Primitives, m: Bytes, key: Bytes, secret: Bytes, prefix: Nonce)
    requires p.Lawful() && GoodKey(key)
    ensures var c := SymmetricEncryptHMAC(p, m, key, secret, prefix);
            c.Ok? && SymmetricDecryptHMAC(p, c.value, key, secret) == Ok(m)
  {
    AuthenticatedEnvelopeExact(p, SymmetricEncryptHMAC(p, m, key, secret, prefix).value, key, secret, m, prefix);
  }
}
