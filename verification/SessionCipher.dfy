/** The encryption of secrets in a session: padding to blocks, and cipher block chaining over a keyed permutation. */
module SessionCipher {
  import KeyAgreement
  import opened Wrappers

  type Byte = KeyAgreement.Byte

  type Text = seq<Byte>

  const BLOCK: nat := 16

  type Block = b: Text | |b| == 16 witness [0, 0, 0, 0, 0, 0, 0, 0, 0, 0, 0, 0, 0, 0, 0, 0]

  datatype Error = BadKey | BadIV | Short | NotBlocks | Empty | PadTooLong | PadMismatch

  // ----- padding, section 6.3 of RFC 5652 -----

  function Repeat(b: Byte, m: nat): (s: Text)
    ensures |s| == m && forall i | 0 <= i < m :: s[i] == b
  {
    seq(m, _ => b)
  }

  /** How many bytes are missing to a whole block, and what is left of that number in a byte. */
  function Missing(len: nat, n: nat): (r: nat)
    requires n > 0
    ensures 0 < r <= n && (len + r) % n == 0
  {
    assert (len + (n - len % n)) % n == 0 by {
      KeyAgreement.ModUnique(len + (n - len % n), n, len / n + 1, 0);
    }
    n - len % n
  }

  function PadLength(len: nat, n: nat): (m: nat)
    requires n > 0
    ensures 0 < m < 256
  {
    var m := Missing(len, n) % 256;
    if m == 0 then 16 else m
  }

  function Pad(xs: Text, n: nat): Text
    requires n > 0
  {
    xs + Repeat(PadLength(|xs|, n), PadLength(|xs|, n))
  }

  /** The pad that a padded text ends in: as many bytes as the last one says, all equal to it. */
  function Unpad(xs: Text, n: nat): Result<Text, Error>
    requires n > 0
  {
    if |xs| == 0 then Err(Empty)
    else if |xs| % n != 0 then Err(NotBlocks)
    else
      var last := xs[|xs| - 1];
      var start := |xs| - last;
      if start < 0 then Err(PadTooLong)
      else if xs[start..] != Repeat(last, last) then Err(PadMismatch)
      else Ok(xs[..start])
  }

  method UnpadPKCS7(xs: Text, n: nat) returns (r: Result<Text, Error>)
    requires n > 0
    ensures r == Unpad(xs, n)
  {
    if |xs| == 0 { return Err(Empty); }
    if |xs| % n != 0 { return Err(NotBlocks); }
    var lastByte := xs[|xs| - 1];
    var padStartIdx := |xs| - lastByte;
    if padStartIdx < 0 { return Err(PadTooLong); }
    for i := padStartIdx to |xs|
      invariant forall k | padStartIdx <= k < i :: xs[k] == lastByte
    {
      if xs[i] != lastByte {
        assert xs[padStartIdx..][i - padStartIdx] != Repeat(lastByte, lastByte)[i - padStartIdx];
        return Err(PadMismatch);
      }
    }
    r := Ok(xs[..padStartIdx]);
  }

  /** No other number of bytes, up to a block, fills the block. */
  lemma MissingUnique(len: nat, n: nat, m: nat)
    requires 0 < m <= n && (len + m) % n == 0
    ensures Missing(len, n) == m
  {
    var q := (len + m) / n;
    assert len == (q - 1) * n + (n - m);
    KeyAgreement.ModUnique(len, n, q - 1, n - m);
  }

  /** A text with a well-formed pad is unpadded if it fills its blocks. */
  lemma UnpadOf(xs: Text, b: Byte, n: nat)
    requires n > 0 && b != 0
    ensures var p := xs + Repeat(b, b); Unpad(p, n) == if |p| % n == 0 then Ok(xs) else Err(NotBlocks)
  {
    var p := xs + Repeat(b, b);
    assert p[|p| - 1] == b && p[..|xs|] == xs && p[|xs|..] == Repeat(b, b);
  }

  /**
    Unpadding undoes padding exactly when the missing length fits a byte, as it does for every block of up to 255
    bytes.
  */
  lemma UnpadUndoesPad(xs: Text, n: nat)
    requires n > 0
    ensures Unpad(Pad(xs, n), n) == Ok(xs) <==> Missing(|xs|, n) <= 255
    ensures Missing(|xs|, n) > 255 ==> Unpad(Pad(xs, n), n) == Err(NotBlocks)
  {
    var m := PadLength(|xs|, n);
    assert Missing(|xs|, n) <= 255 ==> m == Missing(|xs|, n);
    assert Missing(|xs|, n) > 255 ==> m < Missing(|xs|, n);
    hide Missing, PadLength, Repeat, Unpad;
    UnpadOf(xs, m, n);
    if (|xs| + m) % n == 0 && Missing(|xs|, n) > 255 { MissingUnique(|xs|, n, m); }
  }

  /** Padding undoes unpadding exactly when the last byte is in 1..n. */
  lemma PadUndoesUnpad(ys: Text, n: nat)
    requires n > 0 && Unpad(ys, n).Ok?
    ensures Pad(Unpad(ys, n).value, n) == ys <==> 1 <= ys[|ys| - 1] <= n
  {
    var last := ys[|ys| - 1];
    var l := last;
    var xs := Unpad(ys, n).value;
    assert ys[|ys| - l..] == Repeat(last, l) && xs == ys[..|ys| - l];
    var m := PadLength(|xs|, n);
    assert m <= n || m == 16;
    assert Missing(|xs|, n) <= 255 ==> m == Missing(|xs|, n);
    hide Missing, PadLength, Unpad, Repeat;
    assert |xs| + l == |ys| && ys == xs + Repeat(last, l);
    if 1 <= l <= n {
      MissingUnique(|xs|, n, l);
    } else {
      PadLengthIs(|xs|, n, l);
    }
  }

  /** A pad of no byte, or of more than a block, is never written where blocks are filled. */
  lemma PadLengthIs(len: nat, n: nat, l: nat)
    requires n > 0 && l < 256 && !(1 <= l <= n)
    ensures PadLength(len, n) != l
  {
  }

  // ----- cipher block chaining, section 6.2 of NIST SP 800-38A -----

  /** A block cipher under one key. */
  datatype Cipher = Cipher(enc: Block -> Block, dec: Block -> Block)

  ghost predicate IsPermutation(c: Cipher) {
    forall b: Block :: c.dec(c.enc(b)) == b && c.enc(c.dec(b)) == b
  }

  /** Exclusive or of the lowest n bits, bit by bit. */
  function XorBits(a: nat, b: nat, n: nat): (r: nat)
    ensures r < KeyAgreement.Pow(2, n)
  {
    if n == 0 then 0 else XorBits(a / 2, b / 2, n - 1) * 2 + (a + b) % 2
  }

  lemma XorOnce(a: nat, b: nat, n: nat)
    requires n > 0
    ensures XorBits(a, b, n) / 2 == XorBits(a / 2, b / 2, n - 1) && XorBits(a, b, n) % 2 == (a + b) % 2
  {
  }

  lemma {:induction false} XorBitsTwice(a: nat, b: nat, n: nat)
    requires a < KeyAgreement.Pow(2, n)
    ensures XorBits(XorBits(a, b, n), b, n) == a
  {
    if n > 0 {
      assert a / 2 < KeyAgreement.Pow(2, n - 1);
      hide XorBits, KeyAgreement.Pow;
      XorOnce(a, b, n);
      XorOnce(XorBits(a, b, n), b, n);
      XorBitsTwice(a / 2, b / 2, n - 1);
      Parity(a, b, XorBits(a, b, n));
    } else {
      assert KeyAgreement.Pow(2, 0) == 1;
    }
  }

  lemma Parity(a: nat, b: nat, r: nat)
    requires r % 2 == (a + b) % 2
    ensures (r + b) % 2 == a % 2
  {
  }

  function Bit(a: nat, i: nat): nat
    requires KeyAgreement.Pow(2, i) > 0
  {
    a / KeyAgreement.Pow(2, i) % 2
  }

  lemma {:induction false} XorBitAt(a: nat, b: nat, n: nat, i: nat)
    requires i < n
    ensures KeyAgreement.Pow(2, i) > 0 && Bit(XorBits(a, b, n), i) == (Bit(a, i) + Bit(b, i)) % 2
  {
    hide XorBits, Bit, KeyAgreement.Pow;
    KeyAgreement.PowPositive(2, i);
    var r := XorBits(a, b, n);
    XorOnce(a, b, n);
    if i > 0 {
      XorBitAt(a / 2, b / 2, n - 1, i - 1);
      BitAbove(r, i);
      BitAbove(a, i);
      BitAbove(b, i);
    } else {
      LowestBits(a, b, r);
    }
  }

  lemma LowestBits(a: nat, b: nat, r: nat)
    requires r % 2 == (a + b) % 2
    ensures KeyAgreement.Pow(2, 0) == 1 && Bit(r, 0) == (Bit(a, 0) + Bit(b, 0)) % 2
  {
  }

  lemma BitAbove(a: nat, i: nat)
    requires i > 0
    ensures KeyAgreement.Pow(2, i) > 0 && KeyAgreement.Pow(2, i - 1) > 0 && Bit(a, i) == Bit(a / 2, i - 1)
  {
    KeyAgreement.PowPositive(2, i - 1);
    var k := KeyAgreement.Pow(2, i - 1);
    assert KeyAgreement.Pow(2, i) == 2 * k;
    QuotientOfHalf(a, k);
  }

  lemma QuotientOfHalf(a: nat, k: nat)
    requires k > 0
    ensures a / (2 * k) == a / 2 / k
  {
    var h := a / 2;
    var q, r := h / k, h % k;
    assert h == q * k + r;
    assert a == q * (2 * k) + (2 * r + a % 2);
    var d := 2 * k;
    assert 2 * r + a % 2 < d;
    KeyAgreement.ModUnique(a, d, q, 2 * r + a % 2);
    assert a / d * d == q * d;
    SameFactor(a / d, q, d);
  }

  lemma SameFactor(x: int, y: int, d: int)
    requires d > 0 && x * d == y * d
    ensures x == y
  {
    assert (x - y) * d == 0;
  }

  /** Exclusive or: each of the eight bits is set where exactly one of the two is. */
  lemma XorByteBits(a: Byte, b: Byte, i: nat)
    requires i < 8
    ensures KeyAgreement.Pow(2, i) > 0 && Bit(XorByte(a, b), i) == (Bit(a, i) + Bit(b, i)) % 2
  {
    XorBitAt(a, b, 8, i);
  }

  function XorByte(a: Byte, b: Byte): Byte {
    assert KeyAgreement.Pow(2, 8) == 256;
    XorBits(a, b, 8)
  }

  function Xor(a: Block, b: Block): (r: Block)
    ensures forall i | 0 <= i < 16 :: r[i] == XorByte(a[i], b[i])
  {
    seq(16, i requires 0 <= i < 16 => XorByte(a[i], b[i]))
  }

  lemma XorTwice(a: Block, b: Block)
    ensures Xor(Xor(a, b), b) == a
  {
    hide XorBits;
    assert KeyAgreement.Pow(2, 8) == 256;
    forall i | 0 <= i < 16 ensures XorByte(XorByte(a[i], b[i]), b[i]) == a[i] { XorBitsTwice(a[i], b[i], 8); }
  }

  function ChainEncrypt(c: Cipher, iv: Block, p: Text): (r: Text)
    requires |p| % 16 == 0
    ensures |r| == |p|
    decreases |p|
  {
    if p == [] then []
    else
      var b := c.enc(Xor(p[..16], iv));
      b + ChainEncrypt(c, b, p[16..])
  }

  function ChainDecrypt(c: Cipher, iv: Block, q: Text): (r: Text)
    requires |q| % 16 == 0
    ensures |r| == |q|
    decreases |q|
  {
    if q == [] then []
    else Xor(c.dec(q[..16]), iv) + ChainDecrypt(c, q[..16], q[16..])
  }

  lemma {:induction false} DecryptUndoesEncrypt(c: Cipher, iv: Block, p: Text)
    requires IsPermutation(c) && |p| % 16 == 0
    ensures ChainDecrypt(c, iv, ChainEncrypt(c, iv, p)) == p
    decreases |p|
  {
    if p != [] {
      var b := c.enc(Xor(p[..16], iv));
      var q := ChainEncrypt(c, iv, p);
      assert q[..16] == b && q[16..] == ChainEncrypt(c, b, p[16..]);
      DecryptUndoesEncrypt(c, b, p[16..]);
      XorTwice(p[..16], iv);
      assert p == p[..16] + p[16..];
    }
  }

  lemma {:induction false} EncryptUndoesDecrypt(c: Cipher, iv: Block, q: Text)
    requires IsPermutation(c) && |q| % 16 == 0
    ensures ChainEncrypt(c, iv, ChainDecrypt(c, iv, q)) == q
    decreases |q|
  {
    if q != [] {
      var p := ChainDecrypt(c, iv, q);
      assert p[..16] == Xor(c.dec(q[..16]), iv) && p[16..] == ChainDecrypt(c, q[..16], q[16..]);
      EncryptUndoesDecrypt(c, q[..16], q[16..]);
      XorTwice(c.dec(q[..16]), iv);
      assert q == q[..16] + q[16..];
    }
  }

  /** The block that the block at i is chained to. */
  function Previous(iv: Block, q: Text, i: nat): Block
    requires i <= |q| && i % 16 == 0
  {
    if i == 0 then iv else q[i - 16..i]
  }

  lemma DecryptFrom(c: Cipher, prev: Block, q: Text, i: nat)
    requires i + 16 <= |q| && |q| % 16 == 0 && i % 16 == 0
    ensures ChainDecrypt(c, prev, q[i..]) == Xor(c.dec(q[i..i + 16]), prev) + ChainDecrypt(c, q[i..i + 16], q[i + 16..])
  {
    assert q[i..][..16] == q[i..i + 16] && q[i..][16..] == q[i + 16..];
  }

  method WriteBlock(buf: array<Byte>, i: nat, b: Block)
    requires i + 16 <= buf.Length
    modifies buf
    ensures buf[..] == old(buf[..i]) + b + old(buf[i + 16..])
  {
    forall k | 0 <= k < 16 { buf[i + k] := b[k]; }
  }

  /** Decrypts in place, from the last block to the first, so that each block's predecessor is still there. */
  method ChainDecryptInPlace(c: Cipher, iv: Block, buf: array<Byte>)
    requires buf.Length % 16 == 0
    modifies buf
    ensures buf[..] == ChainDecrypt(c, iv, old(buf[..]))
  {
    hide ChainDecrypt, Xor;
    ghost var q := buf[..];
    var i := buf.Length;
    ghost var done: Text := [];
    assert q[i..] == [] && ChainDecrypt(c, Previous(iv, q, i), []) == [];
    while i > 0
      invariant 0 <= i <= buf.Length && i % 16 == 0
      invariant buf[..] == q[..i] + done && done == ChainDecrypt(c, Previous(iv, q, i), q[i..])
    {
      i := i - 16;
      assert buf[i..i + 16] == buf[..][i..i + 16] == q[i..i + 16];
      assert buf[..i] == buf[..][..i] == q[..i] && buf[i + 16..] == buf[..][i + 16..] == done;
      assert i > 0 ==> buf[i - 16..i] == buf[..][i - 16..i] == q[i - 16..i];
      var prev: Block := if i == 0 then iv else buf[i - 16..i];
      var plain := Xor(c.dec(buf[i..i + 16]), prev);
      DecryptFrom(c, prev, q, i);
      WriteBlock(buf, i, plain);
      done := plain + done;
    }
    assert q[0..] == q && q[..0] + done == done;
  }

  /** Each block of a chained encryption seals its plaintext block under exclusive or with the block before it. */
  lemma {:induction false} EncryptedBlock(c: Cipher, iv: Block, p: Text, i: nat)
    requires |p| % 16 == 0 && i % 16 == 0 && i + 16 <= |p|
    ensures var q := ChainEncrypt(c, iv, p); q[i..i + 16] == c.enc(Xor(p[i..i + 16], Previous(iv, q, i)))
    decreases i
  {
    hide Xor;
    var b := c.enc(Xor(p[..16], iv));
    var q, rest := ChainEncrypt(c, iv, p), ChainEncrypt(c, b, p[16..]);
    assert q == b + rest;
    if i > 0 {
      EncryptedBlock(c, b, p[16..], i - 16);
      assert q[i..i + 16] == rest[i - 16..i] && p[16..][i - 16..i] == p[i..i + 16];
      assert Previous(b, rest, i - 16) == Previous(iv, q, i);
    }
  }

  /** Each block of a chained decryption is its ciphertext block opened, under exclusive or with the one before it. */
  lemma {:induction false} DecryptedBlock(c: Cipher, iv: Block, q: Text, i: nat)
    requires |q| % 16 == 0 && i % 16 == 0 && i + 16 <= |q|
    ensures ChainDecrypt(c, iv, q)[i..i + 16] == Xor(c.dec(q[i..i + 16]), Previous(iv, q, i))
    decreases i
  {
    hide Xor;
    var p, rest := ChainDecrypt(c, iv, q), ChainDecrypt(c, q[..16], q[16..]);
    assert p == Xor(c.dec(q[..16]), iv) + rest;
    if i > 0 {
      DecryptedBlock(c, q[..16], q[16..], i - 16);
      assert p[i..i + 16] == rest[i - 16..i] && q[16..][i - 16..i] == q[i..i + 16];
      assert Previous(q[..16], q[16..], i - 16) == Previous(iv, q, i);
    }
  }

  // ----- a session's encryption -----

  predicate KeySize(key: Text) { |key| in {16, 24, 32} }

  method Encrypt(plaintext: Text, key: Text, aes: Text -> Cipher, iv: Block) returns (r: Result<Text, Error>)
    ensures r == if KeySize(key) then Ok(ChainEncrypt(aes(key), iv, PadToBlocks(plaintext))) else Err(BadKey)
  {
    if !KeySize(key) { return Err(BadKey); }
    r := Ok(ChainEncrypt(aes(key), iv, PadToBlocks(plaintext)));
  }

  function PadToBlocks(xs: Text): (p: Text)
    ensures |p| % 16 == 0 && |p| > |xs|
  {
    Pad(xs, BLOCK)
  }

  /** What decryption returns, in its order of checks. */
  function Decrypted(iv: Text, q: Text, key: Text, aes: Text -> Cipher): Result<Text, Error> {
    if !KeySize(key) then Err(BadKey)
    else if |iv| != BLOCK then Err(BadIV)
    else if |q| < BLOCK then Err(Short)
    else if |q| % BLOCK != 0 then Err(NotBlocks)
    else Unpad(ChainDecrypt(aes(key), iv, q), BLOCK)
  }

  method Decrypt(iv: Text, ciphertext: array<Byte>, key: Text, aes: Text -> Cipher) returns (r: Result<Text, Error>)
    modifies ciphertext
    ensures r == Decrypted(iv, old(ciphertext[..]), key, aes)
    ensures r.Err? && r.error in {BadKey, BadIV, Short, NotBlocks} ==> ciphertext[..] == old(ciphertext[..])
  {
    if !KeySize(key) { return Err(BadKey); }
    if |iv| != BLOCK { return Err(BadIV); }
    if ciphertext.Length < BLOCK { return Err(Short); }
    if ciphertext.Length % BLOCK != 0 { return Err(NotBlocks); }
    ChainDecryptInPlace(aes(key), iv, ciphertext);
    r := UnpadPKCS7(ciphertext[..], BLOCK);
  }

  /** Decrypting what was encrypted returns the plaintext, for every plaintext, key and initial vector. */
  lemma SessionRoundTrip(plaintext: Text, key: Text, aes: Text -> Cipher, iv: Block)
    requires KeySize(key) && IsPermutation(aes(key))
    ensures Decrypted(iv, ChainEncrypt(aes(key), iv, PadToBlocks(plaintext)), key, aes) == Ok(plaintext)
  {
    DecryptUndoesEncrypt(aes(key), iv, PadToBlocks(plaintext));
    UnpadUndoesPad(plaintext, BLOCK);
  }

  /**
    What decryption returns, bit by bit: the cipher's output under exclusive or with the vector or the block before.
  */
  lemma DecryptedBits(iv: Block, q: Text, key: Text, aes: Text -> Cipher, k: nat, i: nat)
    requires Decrypted(iv, q, key, aes).Ok? && k < |Decrypted(iv, q, key, aes).value| && i < 8
    ensures var at := k / 16 * 16;
            && KeyAgreement.Pow(2, i) > 0 && |q| % 16 == 0 && at + 16 <= |q|
            && Bit(Decrypted(iv, q, key, aes).value[k], i)
               == (Bit(aes(key).dec(q[at..at + 16])[k - at], i) + Bit(Previous(iv, q, at)[k - at], i)) % 2
  {
    hide ChainDecrypt, Bit;
    var at, p := k / 16 * 16, ChainDecrypt(aes(key), iv, q);
    DecryptedBlock(aes(key), iv, q, at);
    assert Decrypted(iv, q, key, aes).value[k] == p[k] == p[at..at + 16][k - at];
    XorByteBits(aes(key).dec(q[at..at + 16])[k - at], Previous(iv, q, at)[k - at], i);
  }

  /**
    Encrypting a decrypted text again, under the same initial vector, gives the ciphertext back exactly when the
    decrypted blocks end in a pad byte in 1..16; decryption also accepts a pad byte of 0 and of more than a block.
  */
  lemma ReencryptIsIdentity(q: Text, key: Text, aes: Text -> Cipher, iv: Block)
    requires KeySize(key) && IsPermutation(aes(key)) && Decrypted(iv, q, key, aes).Ok?
    ensures var p := ChainDecrypt(aes(key), iv, q);
            ChainEncrypt(aes(key), iv, PadToBlocks(Decrypted(iv, q, key, aes).value)) == q <==> 1 <= p[|p| - 1] <= 16
  {
    var c, p := aes(key), ChainDecrypt(aes(key), iv, q);
    var padded := PadToBlocks(Unpad(p, BLOCK).value);
    EncryptUndoesDecrypt(c, iv, q);
    PadUndoesUnpad(p, BLOCK);
    if ChainEncrypt(c, iv, padded) == q {
      DecryptUndoesEncrypt(c, iv, padded);
    }
  }

  /** Two sides that accept each other's public values read what the other encrypted under its own derived key. */
  lemma SessionDelivers(group: KeyAgreement.Group, x: nat, y: nat, derive: Text -> Text,
                        plaintext: Text, aes: Text -> Cipher, iv: Block)
    requires group.p > 0 && forall s :: |derive(s)| == 16 && IsPermutation(aes(derive(s)))
    requires KeyAgreement.Accepts(group, KeyAgreement.Public(group, x))
    requires KeyAgreement.Accepts(group, KeyAgreement.Public(group, y))
    ensures var mine := KeyAgreement.KeyInput(group, KeyAgreement.Received(group, y), x);
            var theirs := KeyAgreement.KeyInput(group, KeyAgreement.Received(group, x), y);
            && mine.Some? && theirs.Some?
            && var sent := ChainEncrypt(aes(derive(mine.value)), iv, PadToBlocks(plaintext));
            Decrypted(iv, sent, derive(theirs.value), aes) == Ok(plaintext)
  {
    KeyAgreement.SameKeyInput(group, x, y);
    var key := derive(KeyAgreement.KeyInput(group, KeyAgreement.Received(group, y), x).value);
    SessionRoundTrip(plaintext, key, aes, iv);
  }
}
