/** The AES-128 block cipher of aes.c: round steps on a 16-byte state inside a
    buffer, the key schedule, Cipher and InvCipher. Byte 4 * i + j of a block is
    column i, row j of the state of section 3.4 of FIPS 197. */
module Aes {
  import opened Bytes
  import opened AesTables

  const BLOCK_LENGTH: nat := 16
  const NK: nat := 4
  const NR: nat := 10
  const EXPANDED_LENGTH: nat := 176

  type Block = b: seq<Byte> | |b| == 16 witness seq(16, i => 0)

  // ---------- arithmetic in GF(2^8) ----------

  function Xtime(x: Byte): Byte {
    (x << 1) ^ (((x >> 7) & 1) * 0x1b)
  }

  function Multiply(x: Byte, y: Byte): Byte {
    ((y & 1) * x)
    ^ (((y >> 1) & 1) * Xtime(x))
    ^ (((y >> 2) & 1) * Xtime(Xtime(x)))
    ^ (((y >> 3) & 1) * Xtime(Xtime(Xtime(x))))
    ^ (((y >> 4) & 1) * Xtime(Xtime(Xtime(Xtime(x)))))
  }

  function Xor(x: Byte, y: Byte): Byte {
    x ^ y
  }

  lemma XorRotates(a: Byte, b: Byte, c: Byte, d: Byte)
    ensures a ^ b ^ c ^ d == b ^ c ^ d ^ a
    ensures a ^ b ^ c ^ d == c ^ d ^ a ^ b
    ensures a ^ b ^ c ^ d == d ^ a ^ b ^ c
  {
  }

  function ColumnSum(a: Byte, b: Byte, c: Byte, d: Byte): Byte {
    a ^ b ^ c ^ d
  }

  function Sum(p: Byte, q: Byte, r: Byte, s: Byte): Byte {
    Xor(Xor(p, q), Xor(r, s))
  }

  lemma XorCommutes(x: Byte, y: Byte)
    ensures Xor(x, y) == Xor(y, x)
  {
  }

  lemma XorAssociates(x: Byte, y: Byte, z: Byte)
    ensures Xor(Xor(x, y), z) == Xor(x, Xor(y, z))
  {
  }

  lemma XorSwap(p: Byte, q: Byte, r: Byte, s: Byte)
    ensures Xor(Xor(p, q), Xor(r, s)) == Xor(Xor(p, r), Xor(q, s))
  {
    hide Xor;
    XorAssociates(p, q, Xor(r, s));
    XorAssociates(q, r, s);
    XorCommutes(q, r);
    XorAssociates(r, q, s);
    XorAssociates(p, r, Xor(q, s));
  }

  lemma SumRotates(p: Byte, q: Byte, r: Byte, s: Byte)
    ensures Sum(p, q, r, s) == Sum(s, p, q, r)
  {
    hide Xor;
    XorCommutes(r, s);
    XorCommutes(p, q);
    XorCommutes(Xor(p, q), Xor(r, s));
    XorSwap(s, r, p, q);
    XorCommutes(r, q);
  }

  lemma XtimeAdds(x: Byte, y: Byte)
    ensures Xtime(Xor(x, y)) == Xor(Xtime(x), Xtime(y))
  {
  }

  /** The multiples that the mix and its inverse need, as repeated doublings. */
  lemma Multiples(x: Byte)
    ensures var x2 := Xtime(x);
      var x4 := Xtime(x2);
      var x8 := Xtime(x4);
      && Multiply(x, 0x02) == x2
      && Multiply(x, 0x03) == Xor(x, x2)
      && Multiply(x, 0x09) == Xor(x, x8)
      && Multiply(x, 0x0b) == Xor(Xor(x, x2), x8)
      && Multiply(x, 0x0d) == Xor(Xor(x, x4), x8)
      && Multiply(x, 0x0e) == Xor(Xor(x2, x4), x8)
  {
  }

  lemma MultiplyAdds(x: Byte, y: Byte, k: Byte)
    requires k == 0x0e || k == 0x0b || k == 0x0d || k == 0x09
    ensures Multiply(Xor(x, y), k) == Xor(Multiply(x, k), Multiply(y, k))
  {
    hide Xtime, Multiply, Xor;
    var x2, y2 := Xtime(x), Xtime(y);
    var x4, y4 := Xtime(x2), Xtime(y2);
    var x8, y8 := Xtime(x4), Xtime(y4);
    XtimeAdds(x, y);
    XtimeAdds(x2, y2);
    XtimeAdds(x4, y4);
    Multiples(x);
    Multiples(y);
    Multiples(Xor(x, y));
    XorSwap(x, y, x8, y8);
    XorSwap(x, y, x2, y2);
    XorSwap(Xor(x, x2), Xor(y, y2), x8, y8);
    XorSwap(x, y, x4, y4);
    XorSwap(Xor(x, x4), Xor(y, y4), x8, y8);
    XorSwap(x2, y2, x4, y4);
    XorSwap(Xor(x2, x4), Xor(y2, y4), x8, y8);
  }

  lemma MultiplySum(p: Byte, q: Byte, r: Byte, s: Byte, k: Byte)
    requires k == 0x0e || k == 0x0b || k == 0x0d || k == 0x09
    ensures Multiply(Sum(p, q, r, s), k) == Sum(Multiply(p, k), Multiply(q, k), Multiply(r, k), Multiply(s, k))
  {
    hide Multiply, Xor;
    MultiplyAdds(p, q, k);
    MultiplyAdds(r, s, k);
    MultiplyAdds(Xor(p, q), Xor(r, s), k);
  }

  /** A sum of sums may be taken column by column. */
  lemma Regroup(p: (Byte, Byte, Byte, Byte), q: (Byte, Byte, Byte, Byte),
                r: (Byte, Byte, Byte, Byte), s: (Byte, Byte, Byte, Byte))
    ensures Sum(Sum(p.0, p.1, p.2, p.3), Sum(q.0, q.1, q.2, q.3), Sum(r.0, r.1, r.2, r.3), Sum(s.0, s.1, s.2, s.3))
         == Sum(Sum(p.0, q.0, r.0, s.0), Sum(p.1, q.1, r.1, s.1), Sum(p.2, q.2, r.2, s.2), Sum(p.3, q.3, r.3, s.3))
  {
    hide Xor;
    SwapPairs(p, q);
    SwapPairs(r, s);
    XorSwap(Xor(Xor(p.0, q.0), Xor(p.1, q.1)), Xor(Xor(p.2, q.2), Xor(p.3, q.3)),
            Xor(Xor(r.0, s.0), Xor(r.1, s.1)), Xor(Xor(r.2, s.2), Xor(r.3, s.3)));
    XorSwap(Xor(p.0, q.0), Xor(p.1, q.1), Xor(r.0, s.0), Xor(r.1, s.1));
    XorSwap(Xor(p.2, q.2), Xor(p.3, q.3), Xor(r.2, s.2), Xor(r.3, s.3));
  }

  lemma SwapPairs(p: (Byte, Byte, Byte, Byte), q: (Byte, Byte, Byte, Byte))
    ensures Xor(Sum(p.0, p.1, p.2, p.3), Sum(q.0, q.1, q.2, q.3))
         == Xor(Xor(Xor(p.0, q.0), Xor(p.1, q.1)), Xor(Xor(p.2, q.2), Xor(p.3, q.3)))
  {
    hide Xor;
    XorSwap(Xor(p.0, p.1), Xor(p.2, p.3), Xor(q.0, q.1), Xor(q.2, q.3));
    XorSwap(p.0, p.1, q.0, q.1);
    XorSwap(p.2, p.3, q.2, q.3);
  }

  /** A byte of a column mixed: b is the next one, all the sum of the column. */
  function MixedByte(a: Byte, b: Byte, all: Byte): Byte {
    a ^ (Xtime(a ^ b) ^ all)
  }

  /** A column of coefficients times a column of bytes, as the source adds it. */
  function Combined(a: Byte, j: Byte, b: Byte, k: Byte, c: Byte, l: Byte, d: Byte, m: Byte): Byte {
    Multiply(a, j) ^ Multiply(b, k) ^ Multiply(c, l) ^ Multiply(d, m)
  }

  lemma CombinedRotates(a: Byte, j: Byte, b: Byte, k: Byte, c: Byte, l: Byte, d: Byte, m: Byte)
    ensures Combined(a, j, b, k, c, l, d, m) == Combined(b, k, c, l, d, m, a, j)
  {
    hide Multiply;
    XorRotates(Multiply(a, j), Multiply(b, k), Multiply(c, l), Multiply(d, m));
  }

  function UnmixedByte(a: Byte, b: Byte, c: Byte, d: Byte): Byte {
    Combined(a, 0x0e, b, 0x0b, c, 0x0d, d, 0x09)
  }

  /** The coefficients of section 5.1.3 of FIPS 197. */
  lemma MixedIsProduct(a: Byte, b: Byte, c: Byte, d: Byte)
    ensures MixedByte(a, b, a ^ b ^ c ^ d) == Sum(Multiply(a, 2), Multiply(b, 3), c, d)
  {
    hide Xtime, Multiply;
    Multiples(a);
    Multiples(b);
    XtimeAdds(a, b);
  }

  /** The inverse coefficients times the coefficients of the mix: one on the
      diagonal, zero elsewhere. */
  lemma Diagonal(x: Byte)
    ensures Sum(Multiply(Multiply(x, 2), 0x0e), Multiply(x, 0x0b),
                Multiply(x, 0x0d), Multiply(Multiply(x, 3), 0x09)) == x
    ensures Sum(Multiply(Multiply(x, 3), 0x0e), Multiply(Multiply(x, 2), 0x0b),
                Multiply(x, 0x0d), Multiply(x, 0x09)) == 0
    ensures Sum(Multiply(x, 0x0e), Multiply(Multiply(x, 3), 0x0b),
                Multiply(Multiply(x, 2), 0x0d), Multiply(x, 0x09)) == 0
    ensures Sum(Multiply(x, 0x0e), Multiply(x, 0x0b),
                Multiply(Multiply(x, 3), 0x0d), Multiply(Multiply(x, 2), 0x09)) == 0
  {
  }

  lemma SumWithZeros(x: Byte)
    ensures Sum(x, 0, 0, 0) == x
  {
  }

  /** The inverse mix undoes the mix, one byte of a column at a time. */
  lemma UnmixMixed(a: Byte, b: Byte, c: Byte, d: Byte, all: Byte)
    requires all == a ^ b ^ c ^ d
    ensures UnmixedByte(MixedByte(a, b, all), MixedByte(b, c, all), MixedByte(c, d, all), MixedByte(d, a, all)) == a
  {
    UnmixedIsSum(MixedByte(a, b, all), MixedByte(b, c, all), MixedByte(c, d, all), MixedByte(d, a, all));
    XorRotates(a, b, c, d);
    hide Xtime, Multiply, MixedByte, UnmixedByte, Sum;
    var a2, b2, c2, d2 := Multiply(a, 2), Multiply(b, 2), Multiply(c, 2), Multiply(d, 2);
    var a3, b3, c3, d3 := Multiply(a, 3), Multiply(b, 3), Multiply(c, 3), Multiply(d, 3);
    // The four mixed bytes, with the terms of a, b, c and d in this order.
    MixedIsProduct(a, b, c, d);
    MixedIsProduct(b, c, d, a);
    SumRotates(b2, c3, d, a);
    MixedIsProduct(c, d, a, b);
    SumRotates(c2, d3, a, b);
    SumRotates(b, c2, d3, a);
    MixedIsProduct(d, a, b, c);
    SumRotates(a3, b, c, d2);
    MultiplySum(a2, b3, c, d, 0x0e);
    MultiplySum(a, b2, c3, d, 0x0b);
    MultiplySum(a, b, c2, d3, 0x0d);
    MultiplySum(a3, b, c, d2, 0x09);
    Regroup((Multiply(a2, 0x0e), Multiply(b3, 0x0e), Multiply(c, 0x0e), Multiply(d, 0x0e)),
            (Multiply(a, 0x0b), Multiply(b2, 0x0b), Multiply(c3, 0x0b), Multiply(d, 0x0b)),
            (Multiply(a, 0x0d), Multiply(b, 0x0d), Multiply(c2, 0x0d), Multiply(d3, 0x0d)),
            (Multiply(a3, 0x09), Multiply(b, 0x09), Multiply(c, 0x09), Multiply(d2, 0x09)));
    Diagonal(a);
    Diagonal(b);
    Diagonal(c);
    Diagonal(d);
    SumWithZeros(a);
  }

  lemma UnmixedIsSum(a: Byte, b: Byte, c: Byte, d: Byte)
    ensures UnmixedByte(a, b, c, d) == Sum(Multiply(a, 0x0e), Multiply(b, 0x0b), Multiply(c, 0x0d), Multiply(d, 0x09))
  {
    hide Multiply;
  }

  // ---------- the round steps as functions of a block ----------

  function SubBytesOf(b: Block): Block {
    seq(16, k requires 0 <= k < 16 => Substitute(b[k]))
  }

  function InvSubBytesOf(b: Block): Block {
    seq(16, k requires 0 <= k < 16 => InvSubstitute(b[k]))
  }

  function ShiftRowsOf(b: Block): Block {
    [b[0], b[5], b[10], b[15], b[4], b[9], b[14], b[3], b[8], b[13], b[2], b[7], b[12], b[1], b[6], b[11]]
  }

  function InvShiftRowsOf(b: Block): Block {
    [b[0], b[13], b[10], b[7], b[4], b[1], b[14], b[11], b[8], b[5], b[2], b[15], b[12], b[9], b[6], b[3]]
  }

  /** Section 5.1.2 of FIPS 197: row r moves r columns to the left. */
  lemma RowsMoveLeft(b: Block, r: nat, c: nat)
    requires r < 4 && c < 4
    ensures ShiftRowsOf(b)[4 * c + r] == b[4 * ((c + r) % 4) + r]
  {
    assert r == 0 || r == 1 || r == 2 || r == 3;
    assert c == 0 || c == 1 || c == 2 || c == 3;
  }

  /** The column that starts at byte i, mixed. */
  function MixedColumn(b: Block, i: nat): (column: seq<Byte>)
    requires i <= 12
    ensures |column| == 4
  {
    var s0, s1, s2, s3 := b[i], b[i + 1], b[i + 2], b[i + 3];
    var all := ColumnSum(s0, s1, s2, s3);
    [MixedByte(s0, s1, all), MixedByte(s1, s2, all), MixedByte(s2, s3, all), MixedByte(s3, s0, all)]
  }

  function UnmixedColumn(b: Block, i: nat): (column: seq<Byte>)
    requires i <= 12
    ensures |column| == 4
  {
    var s0, s1, s2, s3 := b[i], b[i + 1], b[i + 2], b[i + 3];
    [Combined(s0, 0x0e, s1, 0x0b, s2, 0x0d, s3, 0x09), Combined(s0, 0x09, s1, 0x0e, s2, 0x0b, s3, 0x0d),
     Combined(s0, 0x0d, s1, 0x09, s2, 0x0e, s3, 0x0b), Combined(s0, 0x0b, s1, 0x0d, s2, 0x09, s3, 0x0e)]
  }

  function MixColumnsOf(b: Block): Block {
    MixedColumn(b, 0) + MixedColumn(b, 4) + MixedColumn(b, 8) + MixedColumn(b, 12)
  }

  function InvMixColumnsOf(b: Block): Block {
    UnmixedColumn(b, 0) + UnmixedColumn(b, 4) + UnmixedColumn(b, 8) + UnmixedColumn(b, 12)
  }

  function AddRoundKeyOf(round: nat, b: Block, roundKey: seq<Byte>): Block
    requires 16 * round + 16 <= |roundKey|
  {
    seq(16, k requires 0 <= k < 16 => b[k] ^ roundKey[16 * round + k])
  }

  lemma InvSubBytesUndoes(b: Block)
    ensures InvSubBytesOf(SubBytesOf(b)) == b
  {
    hide Substitute, InvSubstitute;
    forall k | 0 <= k < 16 ensures InvSubstitute(Substitute(b[k])) == b[k] {
      SubstituteInverse(b[k]);
    }
  }

  lemma InvShiftRowsUndoes(b: Block)
    ensures InvShiftRowsOf(ShiftRowsOf(b)) == b
  {
  }

  /** The four inverse sums are one sum on the rotated column. */
  lemma UnmixedColumnBytes(b: Block, i: nat)
    requires i <= 12
    ensures var s0, s1, s2, s3 := b[i], b[i + 1], b[i + 2], b[i + 3];
      UnmixedColumn(b, i)
      == [UnmixedByte(s0, s1, s2, s3), UnmixedByte(s1, s2, s3, s0),
          UnmixedByte(s2, s3, s0, s1), UnmixedByte(s3, s0, s1, s2)]
  {
    hide Combined;
    var s0, s1, s2, s3 := b[i], b[i + 1], b[i + 2], b[i + 3];
    CombinedRotates(s0, 0x09, s1, 0x0e, s2, 0x0b, s3, 0x0d);
    CombinedRotates(s0, 0x0d, s1, 0x09, s2, 0x0e, s3, 0x0b);
    CombinedRotates(s1, 0x09, s2, 0x0e, s3, 0x0b, s0, 0x0d);
    CombinedRotates(s3, 0x0e, s0, 0x0b, s1, 0x0d, s2, 0x09);
  }

  lemma UnmixAll(s0: Byte, s1: Byte, s2: Byte, s3: Byte)
    ensures var all := ColumnSum(s0, s1, s2, s3);
      var m0, m1 := MixedByte(s0, s1, all), MixedByte(s1, s2, all);
      var m2, m3 := MixedByte(s2, s3, all), MixedByte(s3, s0, all);
      && UnmixedByte(m0, m1, m2, m3) == s0 && UnmixedByte(m1, m2, m3, m0) == s1
      && UnmixedByte(m2, m3, m0, m1) == s2 && UnmixedByte(m3, m0, m1, m2) == s3
  {
    hide MixedByte, UnmixedByte;
    var all := s0 ^ s1 ^ s2 ^ s3;
    XorRotates(s0, s1, s2, s3);
    UnmixMixed(s0, s1, s2, s3, all);
    UnmixMixed(s1, s2, s3, s0, all);
    UnmixMixed(s2, s3, s0, s1, all);
    UnmixMixed(s3, s0, s1, s2, all);
  }

  lemma UnmixedColumnUndoes(b: Block, m: Block, i: nat)
    requires i <= 12 && m[i..i + 4] == MixedColumn(b, i)
    ensures UnmixedColumn(m, i) == b[i..i + 4]
  {
    UnmixedColumnBytes(m, i);
    hide MixedByte, UnmixedByte, UnmixedColumn, ColumnSum;
    assert [m[i], m[i + 1], m[i + 2], m[i + 3]] == m[i..i + 4];
    UnmixAll(b[i], b[i + 1], b[i + 2], b[i + 3]);
  }

  lemma ColumnOf(b: Block, i: nat)
    requires i < 4
    ensures MixColumnsOf(b)[4 * i..4 * i + 4] == MixedColumn(b, 4 * i)
    ensures InvMixColumnsOf(b)[4 * i..4 * i + 4] == UnmixedColumn(b, 4 * i)
  {
    hide MixedColumn, UnmixedColumn;
  }

  lemma InvMixColumnsUndoes(b: Block)
    ensures InvMixColumnsOf(MixColumnsOf(b)) == b
  {
    hide MixedColumn, UnmixedColumn;
    var m := MixColumnsOf(b);
    UnmixedColumnUndoes(b, m, 0);
    UnmixedColumnUndoes(b, m, 4);
    UnmixedColumnUndoes(b, m, 8);
    UnmixedColumnUndoes(b, m, 12);
  }

  lemma AddRoundKeyUndoes(round: nat, b: Block, roundKey: seq<Byte>)
    requires 16 * round + 16 <= |roundKey|
    ensures AddRoundKeyOf(round, AddRoundKeyOf(round, b, roundKey), roundKey) == b
  {
  }

  // ---------- the cipher and its inverse as functions ----------

  /** The block after the first key and n full rounds. */
  function Rounds(b: Block, roundKey: seq<Byte>, n: nat): Block
    requires |roundKey| == EXPANDED_LENGTH && n < NR
  {
    if n == 0 then AddRoundKeyOf(0, b, roundKey)
    else AddRoundKeyOf(n, MixColumnsOf(ShiftRowsOf(SubBytesOf(Rounds(b, roundKey, n - 1)))), roundKey)
  }

  function CipherOf(b: Block, roundKey: seq<Byte>): Block
    requires |roundKey| == EXPANDED_LENGTH
  {
    AddRoundKeyOf(NR, ShiftRowsOf(SubBytesOf(Rounds(b, roundKey, NR - 1))), roundKey)
  }

  /** The block of the inverse cipher after the last key and n full rounds. */
  function InvRounds(b: Block, roundKey: seq<Byte>, n: nat): Block
    requires |roundKey| == EXPANDED_LENGTH && n < NR
  {
    if n == 0 then AddRoundKeyOf(NR, b, roundKey)
    else
      var before := InvSubBytesOf(InvShiftRowsOf(InvRounds(b, roundKey, n - 1)));
      InvMixColumnsOf(AddRoundKeyOf(NR - n, before, roundKey))
  }

  function InvCipherOf(b: Block, roundKey: seq<Byte>): Block
    requires |roundKey| == EXPANDED_LENGTH
  {
    AddRoundKeyOf(0, InvSubBytesOf(InvShiftRowsOf(InvRounds(b, roundKey, NR - 1))), roundKey)
  }

  /** The inverse cipher passes through the cipher's blocks in reverse. */
  lemma {:induction false} InvRoundsRetrace(b: Block, roundKey: seq<Byte>, n: nat)
    requires |roundKey| == EXPANDED_LENGTH && n < NR
    ensures InvRounds(CipherOf(b, roundKey), roundKey, n)
         == ShiftRowsOf(SubBytesOf(Rounds(b, roundKey, NR - 1 - n)))
  {
    hide SubBytesOf, InvSubBytesOf, ShiftRowsOf, InvShiftRowsOf, MixColumnsOf, InvMixColumnsOf, AddRoundKeyOf;
    if n == 0 {
      AddRoundKeyUndoes(NR, ShiftRowsOf(SubBytesOf(Rounds(b, roundKey, NR - 1))), roundKey);
    } else {
      InvRoundsRetrace(b, roundKey, n - 1);
      var r, before := Rounds(b, roundKey, NR - n), Rounds(b, roundKey, NR - 1 - n);
      InvShiftRowsUndoes(SubBytesOf(r));
      InvSubBytesUndoes(r);
      AddRoundKeyUndoes(NR - n, MixColumnsOf(ShiftRowsOf(SubBytesOf(before))), roundKey);
      InvMixColumnsUndoes(ShiftRowsOf(SubBytesOf(before)));
    }
  }

  /** InvCipher undoes Cipher, for every block and every array of round keys. */
  lemma InvCipherUndoesCipher(b: Block, roundKey: seq<Byte>)
    requires |roundKey| == EXPANDED_LENGTH
    ensures InvCipherOf(CipherOf(b, roundKey), roundKey) == b
  {
    hide SubBytesOf, InvSubBytesOf, ShiftRowsOf, InvShiftRowsOf, AddRoundKeyOf, CipherOf;
    InvRoundsRetrace(b, roundKey, NR - 1);
    var r := Rounds(b, roundKey, 0);
    InvShiftRowsUndoes(SubBytesOf(r));
    InvSubBytesUndoes(r);
    AddRoundKeyUndoes(0, b, roundKey);
  }
}
