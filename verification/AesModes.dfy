/** The chaining modes of aes.c: cipher block chaining and counter mode on a
    buffer in place, with the initialization vector carried in the context. */
module AesModes {
  import opened Bytes
  import opened Aes
  import opened AesCipher

  function XorBlock(x: Block, y: Block): Block {
    seq(16, k requires 0 <= k < 16 => x[k] ^ y[k])
  }

  lemma XorBlockTwice(x: Block, y: Block)
    ensures XorBlock(XorBlock(x, y), y) == x
  {
  }

  predicate WholeBlocks(data: seq<Byte>) {
    |data| % BLOCK_LENGTH == 0
  }

  /** The last block of the data, or the vector when there is none. */
  function LastBlock(data: seq<Byte>, iv: Block): Block
    requires WholeBlocks(data)
  {
    if |data| == 0 then iv else data[|data| - 16..]
  }

  /** All blocks but the last. */
  function Initial(data: seq<Byte>): (head: seq<Byte>)
    requires WholeBlocks(data) && |data| > 0
    ensures |data| >= 16 && head == data[..|data| - 16] && WholeBlocks(head)
  {
    data[..|data| - 16]
  }

  // ---------- cipher block chaining ----------

  function Chained(roundKey: seq<Byte>, block: Block, previous: Block): Block
    requires |roundKey| == EXPANDED_LENGTH
  {
    CipherOf(XorBlock(block, previous), roundKey)
  }

  function Unchained(roundKey: seq<Byte>, block: Block, previous: Block): Block
    requires |roundKey| == EXPANDED_LENGTH
  {
    XorBlock(InvCipherOf(block, roundKey), previous)
  }

  lemma UnchainedUndoes(roundKey: seq<Byte>, block: Block, previous: Block)
    requires |roundKey| == EXPANDED_LENGTH
    ensures Unchained(roundKey, Chained(roundKey, block, previous), previous) == block
  {
    hide CipherOf, InvCipherOf, XorBlock;
    InvCipherUndoesCipher(XorBlock(block, previous), roundKey);
    XorBlockTwice(block, previous);
  }

  function CbcEncrypt(roundKey: seq<Byte>, iv: Block, data: seq<Byte>): (r: seq<Byte>)
    requires |roundKey| == EXPANDED_LENGTH && WholeBlocks(data)
    ensures |r| == |data|
  {
    if |data| == 0 then []
    else
      var before := CbcEncrypt(roundKey, iv, Initial(data));
      before + Chained(roundKey, LastBlock(data, iv), LastBlock(before, iv))
  }

  function CbcDecrypt(roundKey: seq<Byte>, iv: Block, data: seq<Byte>): (r: seq<Byte>)
    requires |roundKey| == EXPANDED_LENGTH && WholeBlocks(data)
    ensures |r| == |data|
  {
    if |data| == 0 then []
    else
      var before := Initial(data);
      CbcDecrypt(roundKey, iv, before) + Unchained(roundKey, LastBlock(data, iv), LastBlock(before, iv))
  }

  lemma CbcNothing(key: seq<Byte>, iv: Block)
    requires |key| == EXPANDED_LENGTH
    ensures CbcEncrypt(key, iv, []) == [] && CbcDecrypt(key, iv, []) == []
  {
  }

  lemma NextBlock(now: seq<Byte>, data: seq<Byte>, i: nat)
    requires i + 16 <= |data| == |now| && now[i..] == data[i..]
    ensures now[i..i + 16] == data[i..i + 16] && now[i + 16..] == data[i + 16..]
  {
    assert now[i..][..16] == data[i..][..16];
    assert now[i..][16..] == data[i..][16..];
  }

  lemma CbcEncryptStep(key: seq<Byte>, iv: Block, head: seq<Byte>, block: Block)
    requires |key| == EXPANDED_LENGTH && WholeBlocks(head)
    ensures WholeBlocks(head + block)
    ensures CbcEncrypt(key, iv, head + block)
         == CbcEncrypt(key, iv, head) + Chained(key, block, LastBlock(CbcEncrypt(key, iv, head), iv))
  {
    hide Chained;
    assert Initial(head + block) == head && LastBlock(head + block, iv) == block;
  }

  lemma CbcDecryptStep(key: seq<Byte>, iv: Block, head: seq<Byte>, block: Block)
    requires |key| == EXPANDED_LENGTH && WholeBlocks(head)
    ensures WholeBlocks(head + block)
    ensures CbcDecrypt(key, iv, head + block)
         == CbcDecrypt(key, iv, head) + Unchained(key, block, LastBlock(head, iv))
  {
    hide Unchained;
    assert Initial(head + block) == head && LastBlock(head + block, iv) == block;
  }

  /** Decryption from the starting vector of the encryption restores the data. */
  lemma {:induction false} CbcDecryptUndoesEncrypt(roundKey: seq<Byte>, iv: Block, data: seq<Byte>)
    requires |roundKey| == EXPANDED_LENGTH && WholeBlocks(data)
    ensures CbcDecrypt(roundKey, iv, CbcEncrypt(roundKey, iv, data)) == data
  {
    hide Chained, Unchained, CbcEncrypt, CbcDecrypt, LastBlock;
    if |data| == 0 {
      CbcNothing(roundKey, iv);
      assert data == [];
    } else {
      var head := Initial(data);
      var last := data[|data| - 16..];
      var before := CbcEncrypt(roundKey, iv, head);
      assert data == head + last;
      CbcEncryptStep(roundKey, iv, head, last);
      CbcDecryptStep(roundKey, iv, before, Chained(roundKey, last, LastBlock(before, iv)));
      CbcDecryptUndoesEncrypt(roundKey, iv, head);
      UnchainedUndoes(roundKey, last, LastBlock(before, iv));
    }
  }

  function BlockAt(data: seq<Byte>, j: nat): Block
    requires 16 * j + 16 <= |data|
  {
    data[16 * j..16 * j + 16]
  }

  lemma BlockOfHead(head: seq<Byte>, last: Block, j: nat)
    requires WholeBlocks(head) && 16 * j <= |head|
    ensures BlockAt(head + last, j) == if 16 * j == |head| then last else BlockAt(head, j)
  {
  }

  lemma LastIsBlock(data: seq<Byte>, iv: Block, j: nat)
    requires |data| == 16 * j
    ensures LastBlock(data, iv) == if j == 0 then iv else BlockAt(data, j - 1)
  {
  }

  /** Section 6.2 of NIST SP 800-38A: each block is added to the cipher block
      before it, the first one to the vector, and encrypted. */
  lemma {:induction false} CbcBlock(roundKey: seq<Byte>, iv: Block, data: seq<Byte>, j: nat)
    requires |roundKey| == EXPANDED_LENGTH && WholeBlocks(data) && 16 * j + 16 <= |data|
    ensures var c := CbcEncrypt(roundKey, iv, data);
      BlockAt(c, j) == CipherOf(XorBlock(BlockAt(data, j), if j == 0 then iv else BlockAt(c, j - 1)), roundKey)
  {
    hide CipherOf, XorBlock, CbcEncrypt, BlockAt, LastBlock;
    var head := Initial(data);
    var last := data[|data| - 16..];
    var before := CbcEncrypt(roundKey, iv, head);
    var next := Chained(roundKey, last, LastBlock(before, iv));
    assert data == head + last;
    CbcEncryptStep(roundKey, iv, head, last);
    BlockOfHead(head, last, j);
    BlockOfHead(before, next, j);
    if j > 0 {
      BlockOfHead(before, next, j - 1);
    }
    if 16 * j < |head| {
      CbcBlock(roundKey, iv, head, j);
    } else {
      LastIsBlock(before, iv, j);
    }
  }

  /** The inverse, section 6.2: each block is decrypted and added to the cipher block
      before it. */
  lemma {:induction false} CbcDecryptBlock(roundKey: seq<Byte>, iv: Block, data: seq<Byte>, j: nat)
    requires |roundKey| == EXPANDED_LENGTH && WholeBlocks(data) && 16 * j + 16 <= |data|
    ensures var d := CbcDecrypt(roundKey, iv, data);
      BlockAt(d, j) == XorBlock(InvCipherOf(BlockAt(data, j), roundKey), if j == 0 then iv else BlockAt(data, j - 1))
    decreases |data|
  {
    hide InvCipherOf, XorBlock, CbcDecrypt, BlockAt, LastBlock;
    var head := Initial(data);
    var last := data[|data| - 16..];
    var before := CbcDecrypt(roundKey, iv, head);
    assert data == head + last;
    CbcDecryptStep(roundKey, iv, head, last);
    BlockOfHead(head, last, j);
    BlockOfHead(before, Unchained(roundKey, last, LastBlock(head, iv)), j);
    if j > 0 {
      BlockOfHead(head, last, j - 1);
    }
    if 16 * j < |head| {
      CbcDecryptBlock(roundKey, iv, head, j);
    } else {
      LastIsBlock(head, iv, j);
    }
  }

  lemma LastOfBoth(a: seq<Byte>, b: seq<Byte>, iv: Block)
    requires WholeBlocks(a) && WholeBlocks(b)
    ensures WholeBlocks(a + b) && LastBlock(a + b, iv) == LastBlock(b, LastBlock(a, iv))
  {
    if |b| == 0 {
      assert a + b == a;
    } else {
      assert (a + b)[|a + b| - 16..] == b[|b| - 16..];
    }
  }

  /** Encryption in pieces of whole blocks, each from the last cipher block of
      the one before it, is encryption of the whole. */
  lemma {:induction false} CbcInPieces(roundKey: seq<Byte>, iv: Block, a: seq<Byte>, b: seq<Byte>)
    requires |roundKey| == EXPANDED_LENGTH && WholeBlocks(a) && WholeBlocks(b)
    ensures WholeBlocks(a + b)
    ensures var first := CbcEncrypt(roundKey, iv, a);
      CbcEncrypt(roundKey, iv, a + b) == first + CbcEncrypt(roundKey, LastBlock(first, iv), b)
    decreases |b|
  {
    hide Chained, CbcEncrypt, LastBlock;
    var first := CbcEncrypt(roundKey, iv, a);
    if |b| == 0 {
      assert a + b == a;
      CbcNothing(roundKey, LastBlock(first, iv));
      assert b == [];
    } else {
      var head := Initial(b);
      var last := b[|b| - 16..];
      assert b == head + last && a + b == (a + head) + last;
      CbcInPieces(roundKey, iv, a, head);
      CbcEncryptStep(roundKey, LastBlock(first, iv), head, last);
      CbcEncryptStep(roundKey, iv, a + head, last);
      LastOfBoth(first, CbcEncrypt(roundKey, LastBlock(first, iv), head), iv);
    }
  }

  /** So does decryption, from the last cipher block of each piece. */
  lemma {:induction false} CbcDecryptInPieces(roundKey: seq<Byte>, iv: Block, a: seq<Byte>, b: seq<Byte>)
    requires |roundKey| == EXPANDED_LENGTH && WholeBlocks(a) && WholeBlocks(b)
    ensures WholeBlocks(a + b)
    ensures CbcDecrypt(roundKey, iv, a + b) == CbcDecrypt(roundKey, iv, a) + CbcDecrypt(roundKey, LastBlock(a, iv), b)
    decreases |b|
  {
    hide Unchained, CbcDecrypt, LastBlock;
    if |b| == 0 {
      assert a + b == a;
      CbcNothing(roundKey, LastBlock(a, iv));
      assert b == [];
    } else {
      var head := Initial(b);
      var last := b[|b| - 16..];
      assert b == head + last && a + b == (a + head) + last;
      CbcDecryptInPieces(roundKey, iv, a, head);
      CbcDecryptStep(roundKey, LastBlock(a, iv), head, last);
      CbcDecryptStep(roundKey, iv, a + head, last);
      LastOfBoth(a, head, iv);
    }
  }

  // ---------- the counter ----------

  function NextByte(x: Byte): Byte {
    x + 1
  }

  /** A big-endian number plus one, the carry lost past the first byte. */
  function Inc(b: seq<Byte>): (r: seq<Byte>)
    ensures |r| == |b|
  {
    if |b| == 0 then []
    else
      var n := |b| - 1;
      if b[n] == 255 then Inc(b[..n]) + [0] else b[..n] + [NextByte(b[n])]
  }

  function IncTimes(iv: Block, n: nat): Block {
    if n == 0 then iv else Inc(IncTimes(iv, n - 1))
  }

  /** The number that the bytes spell, first byte most significant. */
  function Number(b: seq<Byte>): (v: nat)
    ensures v < Power256(|b|)
  {
    if |b| == 0 then 0 else 256 * Number(b[..|b| - 1]) + ValueOf(b[|b| - 1])
  }

  /** Byte i has the weight of the bytes after it. */
  lemma {:induction false} NumberOfBytes(b: seq<Byte>, c: seq<Byte>)
    ensures Number(b + c) == Power256(|c|) * Number(b) + Number(c)
    decreases |c|
  {
    if c == [] {
      assert b + c == b;
    } else {
      var n := |c| - 1;
      assert (b + c)[..|b + c| - 1] == b + c[..n] && (b + c)[|b + c| - 1] == c[n];
      NumberOfBytes(b, c[..n]);
      assert Number(b + c) == 256 * Number(b + c[..n]) + ValueOf(c[n]);
      assert Number(c) == 256 * Number(c[..n]) + ValueOf(c[n]);
      hide Number, Power256;
      assert Power256(n + 1) == 256 * Power256(n) by { OneMorePower(n); }
      Weights(Power256(n), Number(b), Number(c[..n]), ValueOf(c[n]));
    }
  }

  lemma OneMorePower(n: nat)
    ensures Power256(n + 1) == 256 * Power256(n)
  {
  }

  lemma Weights(p: nat, n: nat, m: nat, v: nat)
    ensures 256 * (p * n + m) + v == (256 * p) * n + (256 * m + v)
  {
  }

  lemma NextByteAdds(x: Byte)
    requires x != 255
    ensures ValueOf(NextByte(x)) == ValueOf(x) + 1 && ValueOf(x) < 255
  {
  }

  lemma {:induction false} IncAddsOne(b: seq<Byte>)
    ensures Number(Inc(b)) == if Number(b) + 1 == Power256(|b|) then 0 else Number(b) + 1
  {
    if |b| > 0 {
      var n := |b| - 1;
      if b[n] == 255 {
        IncAddsOne(b[..n]);
        assert Inc(b)[..n] == Inc(b[..n]) && ValueOf(255) == 255 && ValueOf(0) == 0;
      } else {
        NextByteAdds(b[n]);
        assert Inc(b)[..n] == b[..n];
      }
    }
  }

  const TWO_128: nat := 0x1_0000_0000_0000_0000_0000_0000_0000_0000

  lemma Power16()
    ensures Power256(16) == TWO_128
  {
    assert Power256(8) == 0x1_0000_0000_0000_0000;
    assert Power256(12) == 0x1_0000_0000_0000_0000_0000_0000;
  }

  /** The counter after n steps, modulo 2^128. */
  lemma {:induction false} IncTimesAdds(iv: Block, n: nat)
    ensures Number(IncTimes(iv, n)) == (Number(iv) + n) % TWO_128
  {
    hide Inc, Number;
    Power16();
    if n > 0 {
      IncTimesAdds(iv, n - 1);
      IncAddsOne(IncTimes(iv, n - 1));
    }
  }

  lemma {:induction false} IncTimesSplits(iv: Block, m: nat, n: nat)
    ensures IncTimes(iv, m + n) == IncTimes(IncTimes(iv, m), n)
  {
    hide Inc;
    if n > 0 {
      IncTimesSplits(iv, m, n - 1);
    }
  }

  // ---------- counter mode ----------

  /** Section 6.5 of NIST SP 800-38A: byte i is added to byte i % 16 of the
      encrypted counter i / 16. */
  function CtrOf(roundKey: seq<Byte>, iv: Block, data: seq<Byte>): (r: seq<Byte>)
    requires |roundKey| == EXPANDED_LENGTH
    ensures |r| == |data|
  {
    seq(|data|, i requires 0 <= i < |data| => data[i] ^ StreamByte(roundKey, iv, i))
  }

  lemma XorTwice(x: Byte, y: Byte)
    ensures (x ^ y) ^ y == x
  {
  }

  lemma CtrUndoesItself(roundKey: seq<Byte>, iv: Block, data: seq<Byte>)
    requires |roundKey| == EXPANDED_LENGTH
    ensures CtrOf(roundKey, iv, CtrOf(roundKey, iv, data)) == data
  {
    hide StreamByte;
    forall i | 0 <= i < |data| ensures CtrOf(roundKey, iv, CtrOf(roundKey, iv, data))[i] == data[i] {
      XorTwice(data[i], StreamByte(roundKey, iv, i));
    }
  }

  /** The byte of the key stream at place i. */
  function StreamByte(roundKey: seq<Byte>, iv: Block, i: nat): Byte
    requires |roundKey| == EXPANDED_LENGTH
  {
    CipherOf(IncTimes(iv, i / 16), roundKey)[i % 16]
  }

  lemma LaterStream(roundKey: seq<Byte>, iv: Block, m: nat, i: nat)
    requires |roundKey| == EXPANDED_LENGTH
    ensures StreamByte(roundKey, iv, 16 * m + i) == StreamByte(roundKey, IncTimes(iv, m), i)
  {
    hide CipherOf, IncTimes;
    assert (16 * m + i) / 16 == m + i / 16 && (16 * m + i) % 16 == i % 16;
    IncTimesSplits(iv, m, i / 16);
  }

  lemma CtrInPieces(roundKey: seq<Byte>, iv: Block, a: seq<Byte>, b: seq<Byte>)
    requires |roundKey| == EXPANDED_LENGTH && WholeBlocks(a)
    ensures CtrOf(roundKey, iv, a + b)
         == CtrOf(roundKey, iv, a) + CtrOf(roundKey, IncTimes(iv, |a| / 16), b)
  {
    hide StreamByte, IncTimes;
    forall i | 0 <= i < |b|
      ensures StreamByte(roundKey, iv, |a| + i) == StreamByte(roundKey, IncTimes(iv, |a| / 16), i)
    {
      LaterStream(roundKey, iv, |a| / 16, i);
    }
  }

  // ---------- the context ----------

  /** struct AES_ctx: the round keys and the vector for the next call. */
  class Context {
    const RoundKey: array<Byte>
    const Iv: array<Byte>

    ghost predicate Valid() {
      RoundKey.Length == EXPANDED_LENGTH && Iv.Length == 16 && RoundKey != Iv
    }

    ghost predicate Apart(buf: array<Byte>) {
      Valid() && buf != RoundKey && buf != Iv
    }

    constructor InitIv(key: array<Byte>, iv: array<Byte>)
      requires key.Length == 16 && iv.Length == 16
      ensures Valid() && fresh(RoundKey) && fresh(Iv) && Iv[..] == iv[..]
      ensures RoundKey[..] == RoundKeysOf(key[..])
    {
      hide RoundKeysOf;
      var roundKey := new Byte[EXPANDED_LENGTH];
      var vector := new Byte[16];
      AesCipher.KeyExpansion(roundKey, key);
      for i := 0 to 16
        invariant forall j | 0 <= j < i :: vector[j] == iv[j]
        invariant roundKey[..] == RoundKeysOf(key[..])
      {
        vector[i] := iv[i];
      }
      RoundKey := roundKey;
      Iv := vector;
    }

    method SetIv(iv: array<Byte>)
      requires Valid() && iv.Length == 16 && iv != Iv
      modifies Iv
      ensures Iv[..] == iv[..]
    {
      CopyBlock(Iv, iv, 0);
    }

    /** Each block is added to the cipher block that now precedes it in the
        buffer: the vector is a place, first in the context, then in the buffer. */
    method CbcEncryptBuffer(buf: array<Byte>, length: nat)
      requires Apart(buf) && length <= buf.Length && length % BLOCK_LENGTH == 0
      modifies buf, Iv
      ensures buf[..length] == CbcEncrypt(RoundKey[..], old(Iv[..]), old(buf[..length]))
      ensures buf[length..] == old(buf[length..])
      ensures Iv[..] == LastBlock(buf[..length], old(Iv[..]))
    {
      hide CipherOf, XorBlock, CbcEncrypt;
      ghost var data := buf[..];
      ghost var iv: Block := Iv[..];
      ghost var key := RoundKey[..];
      var place, at := Iv, 0;
      var i := 0;
      CbcNothing(key, iv);
      assert data[..0] == [];
      while i < length
        invariant i <= length && i % 16 == 0 && |data| == buf.Length
        invariant RoundKey[..] == key && Iv[..] == iv
        invariant buf[..i] == CbcEncrypt(key, iv, data[..i]) && buf[i..] == data[i..]
        invariant place == (if i == 0 then Iv else buf) && at == (if i == 0 then 0 else i - 16)
        invariant place[at..at + 16] == LastBlock(buf[..i], iv)
      {
        ghost var done := buf[..i];
        NextBlock(buf[..], data, i);
        CbcEncryptStep(key, iv, data[..i], data[i..i + 16]);
        assert data[..i + 16] == data[..i] + data[i..i + 16];
        XorWithIv(buf, i, place, at, done);
        ghost var mixed: Block := buf[i..i + 16];
        ghost var before := buf[..];
        BlockInPlace(buf, i);
        Cipher(buf, i, RoundKey, before, mixed);
        AfterBlock(buf, i, before, CipherOf(mixed, key));
        place, at := buf, i;
        i := i + 16;
      }
      CopyBlock(Iv, place, at);
    }

    method CbcDecryptBuffer(buf: array<Byte>, length: nat)
      requires Apart(buf) && length <= buf.Length && length % BLOCK_LENGTH == 0
      modifies buf, Iv
      ensures buf[..length] == CbcDecrypt(RoundKey[..], old(Iv[..]), old(buf[..length]))
      ensures buf[length..] == old(buf[length..])
      ensures Iv[..] == LastBlock(old(buf[..length]), old(Iv[..]))
    {
      hide InvCipherOf, XorBlock, CbcDecrypt;
      ghost var data := buf[..];
      ghost var iv: Block := Iv[..];
      ghost var key := RoundKey[..];
      var storeNextIv := new Byte[16];
      var i := 0;
      CbcNothing(key, iv);
      assert data[..0] == [];
      while i < length
        invariant i <= length && i % 16 == 0 && |data| == buf.Length
        invariant RoundKey[..] == key && Iv[..] == LastBlock(data[..i], iv)
        invariant buf[..i] == CbcDecrypt(key, iv, data[..i]) && buf[i..] == data[i..]
      {
        ghost var done := buf[..i];
        ghost var last: Block := Iv[..];
        NextBlock(buf[..], data, i);
        CbcDecryptStep(key, iv, data[..i], data[i..i + 16]);
        assert data[..i + 16] == data[..i] + data[i..i + 16];
        CopyBlock(storeNextIv, buf, i);
        ghost var before := buf[..];
        BlockInPlace(buf, i);
        InvCipher(buf, i, RoundKey, before, data[i..i + 16]);
        AfterBlock(buf, i, before, InvCipherOf(data[i..i + 16], key));
        assert Iv[0..16] == last;
        XorWithIv(buf, i, Iv, 0, done);
        CopyBlock(Iv, storeNextIv, 0);
        i := i + 16;
      }
    }

    /** The loop that adds one to the vector, byte by byte from the last. */
    method Increment()
      requires Valid()
      modifies Iv
      ensures Iv[..] == Inc(old(Iv[..]))
    {
      hide Inc, NextByte;
      ghost var iv: Block := Iv[..];
      var bi := 15;
      assert iv[..16] == iv && Iv[16..] == [];
      while bi >= 0
        invariant -1 <= bi <= 15
        invariant Iv[..bi + 1] == iv[..bi + 1]
        invariant Inc(iv) == Inc(iv[..bi + 1]) + Iv[bi + 1..]
      {
        IncSplit(iv[..bi + 1]);
        assert iv[..bi + 1][..bi] == iv[..bi];
        ghost var done := Iv[bi + 1..];
        if Iv[bi] == 255 {
          Iv[bi] := 0;
          assert Iv[bi..] == [0] + done;
          bi := bi - 1;
          continue;
        }
        Iv[bi] := NextByte(Iv[bi]);
        assert Iv[bi..] == [NextByte(iv[bi])] + done;
        assert Iv[..] == Iv[..bi] + Iv[bi..];
        return;
      }
    }

    /** The next 16 bytes of the key stream. */
    method Regenerate(buffer: array<Byte>)
      requires Apart(buffer) && buffer.Length == 16
      modifies buffer, Iv
      ensures buffer[..] == CipherOf(old(Iv[..]), RoundKey[..])
      ensures Iv[..] == Inc(old(Iv[..]))
    {
      hide CipherOf, Inc;
      ghost var key := RoundKey[..];
      assert Iv[0..16] == Iv[..];
      CopyBlock(buffer, Iv, 0);
      ghost var counter: Block := buffer[..];
      BlockInPlace(buffer, 0);
      assert buffer[0..16] == counter;
      Cipher(buffer, 0, RoundKey, counter, counter);
      AfterBlock(buffer, 0, counter, CipherOf(counter, key));
      assert RoundKey[..] == key && buffer[0..16] == buffer[..];
      Increment();
    }

    method CtrXcryptBuffer(buf: array<Byte>, length: nat)
      requires Apart(buf) && length <= buf.Length
      modifies buf, Iv
      ensures buf[..length] == CtrOf(RoundKey[..], old(Iv[..]), old(buf[..length]))
      ensures buf[length..] == old(buf[length..])
      ensures Iv[..] == IncTimes(old(Iv[..]), (length + 15) / 16)
    {
      hide CipherOf, Inc, CtrOf;
      ghost var data := buf[..];
      ghost var iv: Block := Iv[..];
      ghost var key := RoundKey[..];
      ghost var result := CtrOf(key, iv, data[..length]);
      var buffer := new Byte[16];
      var i, bi := 0, 16;
      while i < length
        invariant i <= length && RoundKey[..] == key && Iv[..] == IncTimes(iv, (i + 15) / 16)
        invariant buf[length..] == data[length..]
        invariant bi == (if i % 16 == 0 then 16 else i % 16)
        invariant i % 16 != 0 ==> buffer[..] == CipherOf(IncTimes(iv, i / 16), key)
        invariant forall j | 0 <= j < i :: buf[j] == result[j]
        invariant forall j | i <= j < length :: buf[j] == data[j]
      {
        if bi == 16 {
          Regenerate(buffer);
          bi := 0;
          assert (i + 16) / 16 == i / 16 + 1;
        }
        CtrByte(key, iv, data[..length], i);
        buf[i] := buf[i] ^ buffer[bi];
        i, bi := i + 1, bi + 1;
      }
    }
  }

  /** memcpy of one block to a buffer of one block. */
  method CopyBlock(to: array<Byte>, from: array<Byte>, at: nat)
    requires to.Length == 16 && at + 16 <= from.Length && (to == from ==> at == 0)
    modifies to
    ensures to[..] == old(from[at..at + 16])
  {
    ghost var block := from[at..at + 16];
    for i := 0 to 16
      invariant forall j | 0 <= j < i :: to[j] == block[j]
      invariant forall j | i <= j < 16 :: from[at + j] == block[j]
    {
      to[i] := from[at + i];
    }
  }

  method XorWithIv(buf: array<Byte>, off: nat, place: array<Byte>, at: nat, ghost done: seq<Byte>)
    requires off + 16 <= buf.Length && at + 16 <= place.Length && (place == buf ==> at + 16 <= off)
    requires buf[..off] == done
    modifies buf
    ensures buf[..off] == done && buf[off + 16..] == old(buf[off + 16..])
    ensures buf[off..off + 16] == XorBlock(old(buf[off..off + 16]), old(place[at..at + 16]))
  {
    ghost var block: Block := buf[off..off + 16];
    ghost var iv: Block := place[at..at + 16];
    ghost var mixed := XorBlock(block, iv);
    hide XorBlock;
    for i := 0 to 16
      invariant forall j | 0 <= j < buf.Length && !(off <= j < off + 16) :: buf[j] == old(buf[j])
      invariant forall j | 0 <= j < i :: buf[off + j] == mixed[j]
      invariant forall j | i <= j < 16 :: buf[off + j] == block[j]
    {
      assert mixed[i] == block[i] ^ iv[i] by { XorByte(block, iv, i); }
      assert place[at + i] == iv[i];
      buf[off + i] := buf[off + i] ^ place[at + i];
    }
  }

  lemma IncSplit(b: seq<Byte>)
    requires |b| > 0
    ensures var n := |b| - 1;
      Inc(b) == if b[n] == 255 then Inc(b[..n]) + [0] else b[..n] + [NextByte(b[n])]
  {
  }

  lemma CtrByte(key: seq<Byte>, iv: Block, data: seq<Byte>, i: nat)
    requires |key| == EXPANDED_LENGTH && i < |data|
    ensures CtrOf(key, iv, data)[i] == data[i] ^ CipherOf(IncTimes(iv, i / 16), key)[i % 16]
  {
    hide CipherOf;
  }

  lemma XorByte(x: Block, y: Block, i: nat)
    requires i < 16
    ensures XorBlock(x, y)[i] == x[i] ^ y[i]
  {
  }

  lemma BlockInPlace(buf: array<Byte>, off: nat)
    requires off + 16 <= buf.Length
    ensures InPlace(buf, off, buf[..], buf[off..off + 16])
  {
  }

  lemma AfterBlock(buf: array<Byte>, off: nat, before: seq<Byte>, block: Block)
    requires InPlace(buf, off, before, block)
    ensures off + 16 <= |before| == buf.Length && buf[off..off + 16] == block
    ensures buf[..off] == before[..off] && buf[off + 16..] == before[off + 16..]
  {
  }
}
