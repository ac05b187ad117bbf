/** What the cipher and the key schedule of aes.c compute, byte by byte, in the
    terms of FIPS 197 and without their own intermediate steps. */
module AesFips {
  import opened Bytes
  import opened AesTables
  import opened Aes
  import opened AesSbox
  import opened AesCipher

  // ---------- the cipher ----------

  /** The coefficient of row k in row r of the mix, section 5.1.3. */
  function Coefficient(r: nat, k: nat): Byte
    requires r < 4 && k < 4
  {
    [2, 3, 1, 1][(k + 4 - r) % 4]
  }

  /** One term of the mix in row r: row k of the state, shifted and substituted. */
  function Term(b: Block, key: seq<Byte>, n: nat, r: nat, c: nat, k: nat): Byte
    requires |key| == EXPANDED_LENGTH && 0 < n < 10 && r < 4 && c < 4 && k < 4
    decreases n, 0
  {
    Product(Substitute(StateByte(b, key, n - 1, k, (c + k) % 4)), Coefficient(r, k))
  }

  /** The byte in row r and column c of the state after n full rounds, section 5.1:
      every byte is one equation over the round before. */
  function StateByte(b: Block, key: seq<Byte>, n: nat, r: nat, c: nat): Byte
    requires |key| == EXPANDED_LENGTH && n < 10 && r < 4 && c < 4
    decreases n, 1
  {
    if n == 0 then Xor(b[4 * c + r], key[4 * c + r])
    else
      Xor(Sum(Term(b, key, n, r, c, 0), Term(b, key, n, r, c, 1), Term(b, key, n, r, c, 2), Term(b, key, n, r, c, 3)),
          key[16 * n + 4 * c + r])
  }

  lemma SmallProducts(x: Byte)
    ensures Product(x, 1) == x && Product(x, 2) == Multiply(x, 2) && Product(x, 3) == Multiply(x, 3)
  {
  }

  lemma Coefficients(r: nat, k: nat)
    requires r < 4 && k < 4
    ensures Coefficient(r, k) == if k == r then 2 else if k == (r + 1) % 4 then 3 else 1
  {
  }

  /** The four rows of a mixed column. */
  lemma MixedRows(a0: Byte, a1: Byte, a2: Byte, a3: Byte)
    ensures var all := ColumnSum(a0, a1, a2, a3);
      && MixedByte(a0, a1, all) == Sum(Product(a0, 2), Product(a1, 3), Product(a2, 1), Product(a3, 1))
      && MixedByte(a1, a2, all) == Sum(Product(a0, 1), Product(a1, 2), Product(a2, 3), Product(a3, 1))
      && MixedByte(a2, a3, all) == Sum(Product(a0, 1), Product(a1, 1), Product(a2, 2), Product(a3, 3))
      && MixedByte(a3, a0, all) == Sum(Product(a0, 3), Product(a1, 1), Product(a2, 1), Product(a3, 2))
  {
    XorRotates(a0, a1, a2, a3);
    MixedIsProduct(a0, a1, a2, a3);
    MixedIsProduct(a1, a2, a3, a0);
    MixedIsProduct(a2, a3, a0, a1);
    MixedIsProduct(a3, a0, a1, a2);
    hide Product, MixedByte, Multiply, Xtime, Sum;
    SmallProducts(a0);
    SmallProducts(a1);
    SmallProducts(a2);
    SmallProducts(a3);
    var all := ColumnSum(a0, a1, a2, a3);
    assert MixedByte(a1, a2, all) == Sum(Product(a1, 2), Product(a2, 3), a3, a0);
    SumRotates(Product(a1, 2), Product(a2, 3), a3, a0);
    assert MixedByte(a2, a3, all) == Sum(Product(a2, 2), Product(a3, 3), a0, a1);
    SumRotates(Product(a2, 2), Product(a3, 3), a0, a1);
    SumRotates(a1, Product(a2, 2), Product(a3, 3), a0);
    assert MixedByte(a3, a0, all) == Sum(Product(a3, 2), Product(a0, 3), a1, a2);
    SumRotates(Product(a0, 3), a1, a2, Product(a3, 2));
  }

  /** A mixed byte is its row of coefficients times the column. */
  lemma MixedRow(m: Block, c: nat, r: nat)
    requires c < 4 && r < 4
    ensures MixColumnsOf(m)[4 * c + r]
         == Sum(Product(m[4 * c], Coefficient(r, 0)), Product(m[4 * c + 1], Coefficient(r, 1)),
                Product(m[4 * c + 2], Coefficient(r, 2)), Product(m[4 * c + 3], Coefficient(r, 3)))
  {
    ColumnOf(m, c);
    assert MixColumnsOf(m)[4 * c..4 * c + 4][r] == MixedColumn(m, 4 * c)[r];
    hide MixColumnsOf, Product, MixedByte, ColumnSum, Coefficient, Sum;
    MixedRows(m[4 * c], m[4 * c + 1], m[4 * c + 2], m[4 * c + 3]);
    Coefficients(r, 0);
    Coefficients(r, 1);
    Coefficients(r, 2);
    Coefficients(r, 3);
  }

  /** Substituted and shifted, row k of column c comes from column c + k. */
  lemma ShiftedByte(b: Block, c: nat, k: nat)
    requires c < 4 && k < 4
    ensures ShiftRowsOf(SubBytesOf(b))[4 * c + k] == Substitute(b[4 * ((c + k) % 4) + k])
  {
    hide ShiftRowsOf, Substitute;
    RowsMoveLeft(SubBytesOf(b), k, c);
  }

  lemma AddedByte(n: nat, b: Block, key: seq<Byte>, k: nat)
    requires 16 * n + 16 <= |key| && k < 16
    ensures AddRoundKeyOf(n, b, key)[k] == Xor(b[k], key[16 * n + k])
  {
  }

  /** One round as one equation a byte. */
  lemma RoundByte(b: Block, before: Block, key: seq<Byte>, n: nat, r: nat, c: nat)
    requires |key| == EXPANDED_LENGTH && n < 10 && r < 4 && c < 4
    requires b == AddRoundKeyOf(n, MixColumnsOf(ShiftRowsOf(SubBytesOf(before))), key)
    ensures b[4 * c + r]
         == Xor(Sum(Product(Substitute(before[4 * c]), Coefficient(r, 0)),
                    Product(Substitute(before[4 * ((c + 1) % 4) + 1]), Coefficient(r, 1)),
                    Product(Substitute(before[4 * ((c + 2) % 4) + 2]), Coefficient(r, 2)),
                    Product(Substitute(before[4 * ((c + 3) % 4) + 3]), Coefficient(r, 3))),
                key[16 * n + 4 * c + r])
  {
    hide MixColumnsOf, ShiftRowsOf, SubBytesOf, Substitute, Product, Coefficient, Sum, AddRoundKeyOf, Xor;
    var m := ShiftRowsOf(SubBytesOf(before));
    AddedByte(n, MixColumnsOf(m), key, 4 * c + r);
    MixedRow(m, c, r);
    ShiftedByte(before, c, 0);
    ShiftedByte(before, c, 1);
    ShiftedByte(before, c, 2);
    ShiftedByte(before, c, 3);
  }

  lemma StateEquation(b: Block, key: seq<Byte>, n: nat, r: nat, c: nat)
    requires |key| == EXPANDED_LENGTH && 0 < n < 10 && r < 4 && c < 4
    ensures StateByte(b, key, n, r, c)
         == Xor(Sum(Product(Substitute(StateByte(b, key, n - 1, 0, c)), Coefficient(r, 0)),
                    Product(Substitute(StateByte(b, key, n - 1, 1, (c + 1) % 4)), Coefficient(r, 1)),
                    Product(Substitute(StateByte(b, key, n - 1, 2, (c + 2) % 4)), Coefficient(r, 2)),
                    Product(Substitute(StateByte(b, key, n - 1, 3, (c + 3) % 4)), Coefficient(r, 3))),
                key[16 * n + 4 * c + r])
  {
    hide Substitute, Product, Coefficient, Sum, Xor;
    assert (c + 0) % 4 == c;
  }

  lemma {:induction false} RoundsAreStates(b: Block, key: seq<Byte>, n: nat, r: nat, c: nat)
    requires |key| == EXPANDED_LENGTH && n < 10 && r < 4 && c < 4
    ensures Rounds(b, key, n)[4 * c + r] == StateByte(b, key, n, r, c)
    decreases n
  {
    hide MixColumnsOf, ShiftRowsOf, SubBytesOf, Substitute, Product, Coefficient, Sum, AddRoundKeyOf, Xor, Term;
    if n == 0 {
      AddedByte(0, b, key, 4 * c + r);
    } else {
      RoundByte(Rounds(b, key, n), Rounds(b, key, n - 1), key, n, r, c);
      hide StateByte, Rounds;
      StateEquation(b, key, n, r, c);
      RoundsAreStates(b, key, n - 1, 0, c);
      RoundsAreStates(b, key, n - 1, 1, (c + 1) % 4);
      RoundsAreStates(b, key, n - 1, 2, (c + 2) % 4);
      RoundsAreStates(b, key, n - 1, 3, (c + 3) % 4);
    }
  }

  /** The cipher of section 5.1 of FIPS 197, byte by byte: the last round substitutes,
      shifts and adds the last key. */
  lemma CipherBytes(b: Block, key: seq<Byte>, r: nat, c: nat)
    requires |key| == EXPANDED_LENGTH && r < 4 && c < 4
    ensures CipherOf(b, key)[4 * c + r]
         == Xor(Substitute(StateByte(b, key, 9, r, (c + r) % 4)), key[160 + 4 * c + r])
  {
    hide ShiftRowsOf, SubBytesOf, Substitute, StateByte, Rounds, AddRoundKeyOf, Xor;
    AddedByte(NR, ShiftRowsOf(SubBytesOf(Rounds(b, key, 9))), key, 4 * c + r);
    ShiftedByte(Rounds(b, key, 9), c, r);
    RoundsAreStates(b, key, 9, r, (c + r) % 4);
  }

  // ---------- how the key enters ----------

  lemma {:induction false} RoundsOfPrefix(b: Block, key: seq<Byte>, other: seq<Byte>, n: nat)
    requires |key| == |other| == EXPANDED_LENGTH && n < 10 && key[..160] == other[..160]
    ensures Rounds(b, key, n) == Rounds(b, other, n)
  {
    hide MixColumnsOf, ShiftRowsOf, SubBytesOf;
    if n > 0 {
      RoundsOfPrefix(b, key, other, n - 1);
    }
    SameRoundKey(n, key, other, key[..160], 0);
  }

  /** Two key arrays with a part in common have the round keys in it in common. */
  lemma SameRoundKey(n: nat, key: seq<Byte>, other: seq<Byte>, part: seq<Byte>, at: nat)
    requires |key| == |other| && at <= 16 * n && 16 * n + 16 <= at + |part| <= |key|
    requires key[at..at + |part|] == part == other[at..at + |part|]
    ensures key[16 * n..16 * n + 16] == other[16 * n..16 * n + 16]
    ensures forall b: Block :: AddRoundKeyOf(n, b, key) == AddRoundKeyOf(n, b, other)
  {
    PartOf(key, part, at, 16 * n);
    PartOf(other, part, at, 16 * n);
    forall b: Block ensures AddRoundKeyOf(n, b, key) == AddRoundKeyOf(n, b, other) {
      RoundKeyOnly(n, b, key);
      RoundKeyOnly(n, b, other);
    }
  }

  lemma PartOf(key: seq<Byte>, part: seq<Byte>, at: nat, i: nat)
    requires at <= i && i + 16 <= at + |part| <= |key| && key[at..at + |part|] == part
    ensures key[i..i + 16] == part[i - at..i - at + 16]
  {
    var block, same := key[i..i + 16], part[i - at..i - at + 16];
    forall j | 0 <= j < 16 ensures block[j] == same[j] {
      assert part[i - at + j] == key[at..at + |part|][i - at + j];
    }
  }

  lemma RoundKeyOnly(n: nat, b: Block, key: seq<Byte>)
    requires 16 * n + 16 <= |key|
    ensures AddRoundKeyOf(n, b, key) == AddRoundKeyOf(0, b, key[16 * n..16 * n + 16])
  {
  }

  /** What is added to a byte of the last round key is added to that byte of the
      result. */
  lemma LastKeyIsAdded(b: Block, key: seq<Byte>, i: nat, x: Byte)
    requires |key| == EXPANDED_LENGTH && i < 16
    ensures var c := CipherOf(b, key);
      CipherOf(b, key[160 + i := Xor(key[160 + i], x)]) == c[i := Xor(c[i], x)]
  {
    hide MixColumnsOf, ShiftRowsOf, SubBytesOf, Rounds, AddRoundKeyOf, Xor;
    var other := key[160 + i := Xor(key[160 + i], x)];
    assert other[..160] == key[..160];
    RoundsOfPrefix(b, key, other, 9);
    var d := ShiftRowsOf(SubBytesOf(Rounds(b, key, 9)));
    assert CipherOf(b, key) == AddRoundKeyOf(10, d, key) && CipherOf(b, other) == AddRoundKeyOf(10, d, other);
    KeyAdded(d, key, i, x);
  }

  lemma KeyAdded(d: Block, key: seq<Byte>, i: nat, x: Byte)
    requires |key| == EXPANDED_LENGTH && i < 16
    ensures var c := AddRoundKeyOf(10, d, key);
      AddRoundKeyOf(10, d, key[160 + i := Xor(key[160 + i], x)]) == c[i := Xor(c[i], x)]
  {
    hide AddRoundKeyOf, Xor;
    var other := key[160 + i := Xor(key[160 + i], x)];
    var c, changed := AddRoundKeyOf(10, d, key), AddRoundKeyOf(10, d, other);
    forall k | 0 <= k < 16 ensures changed[k] == c[i := Xor(c[i], x)][k] {
      AddedByte(10, d, key, k);
      AddedByte(10, d, other, k);
      XorAssociates(d[k], key[160 + k], x);
    }
  }

  lemma {:induction false} RoundsOfSame(b: Block, d: Block, key: seq<Byte>, other: seq<Byte>, n: nat)
    requires |key| == |other| == EXPANDED_LENGTH && n < 10 && key[16..] == other[16..]
    requires AddRoundKeyOf(0, b, key) == AddRoundKeyOf(0, d, other)
    ensures Rounds(b, key, n) == Rounds(d, other, n)
  {
    hide MixColumnsOf, ShiftRowsOf, SubBytesOf;
    if n > 0 {
      RoundsOfSame(b, d, key, other, n - 1);
      SameRoundKey(n, key, other, key[16..], 16);
    }
  }

  /** The first round key is added to the block: the same added to a byte of both
      changes nothing. */
  lemma FirstKeyIsAdded(b: Block, key: seq<Byte>, i: nat, x: Byte)
    requires |key| == EXPANDED_LENGTH && i < 16
    ensures CipherOf(b[i := Xor(b[i], x)], key[i := Xor(key[i], x)]) == CipherOf(b, key)
  {
    hide MixColumnsOf, ShiftRowsOf, SubBytesOf, Rounds, AddRoundKeyOf, Xor;
    var d, other := b[i := Xor(b[i], x)], key[i := Xor(key[i], x)];
    BothAdded(b, key, i, x);
    assert other[16..] == key[16..];
    RoundsOfSame(d, b, other, key, 9);
    SameRoundKey(10, key, other, key[16..], 16);
  }

  lemma BothAdded(b: Block, key: seq<Byte>, i: nat, x: Byte)
    requires |key| == EXPANDED_LENGTH && i < 16
    ensures AddRoundKeyOf(0, b[i := Xor(b[i], x)], key[i := Xor(key[i], x)]) == AddRoundKeyOf(0, b, key)
  {
    hide AddRoundKeyOf, Xor;
    var d, other := b[i := Xor(b[i], x)], key[i := Xor(key[i], x)];
    var c, changed := AddRoundKeyOf(0, b, key), AddRoundKeyOf(0, d, other);
    forall k | 0 <= k < 16 ensures changed[k] == c[k] {
      AddedByte(0, b, key, k);
      AddedByte(0, d, other, k);
      XorBoth(b[k], key[k], x);
    }
  }

  lemma XorBoth(a: Byte, k: Byte, x: Byte)
    ensures Xor(Xor(a, x), Xor(k, x)) == Xor(a, k)
  {
  }

  // ---------- the key schedule ----------

  /** x^(r - 1) in GF(2^8), section 5.2. */
  function RoundConstant(r: nat): Byte
    requires 1 <= r
  {
    if r == 1 then 1 else Xtime(RoundConstant(r - 1))
  }

  lemma Constants(r: nat)
    requires 1 <= r <= 10
    ensures RCON[r] == RoundConstant(r)
  {
    var c1, c2, c3, c4 := RoundConstant(1), RoundConstant(2), RoundConstant(3), RoundConstant(4);
    assert c1 == 1 && c2 == 2 && c3 == 4 && c4 == 8;
    var c5, c6, c7, c8 := RoundConstant(5), RoundConstant(6), RoundConstant(7), RoundConstant(8);
    assert c5 == 0x10 && c6 == 0x20 && c7 == 0x40 && c8 == 0x80;
    assert RoundConstant(9) == 0x1b && RoundConstant(10) == 0x36;
  }

  lemma KeyByte(key: Block, w: nat, i: nat)
    requires w < 44 && 4 * w <= i < 4 * w + 4
    ensures RoundKeysOf(key)[i] == KeyWord(key, w)[i - 4 * w]
  {
    hide KeyWord;
    assert i / 4 == w && i % 4 == i - 4 * w;
  }

  /** The first round key is the key itself. */
  lemma ScheduleStart(key: Block, i: nat)
    requires i < 16
    ensures RoundKeysOf(key)[i] == key[i]
  {
    KeyByte(key, i / 4, i);
    FirstWords(key, i / 4);
  }

  /** The first word of each later round key: the word before it, rotated and
      substituted, with the constant of the round, is added to the word four places
      before. */
  lemma ScheduleFirstWord(key: Block, r: nat)
    requires 1 <= r <= 10
    ensures var R := RoundKeysOf(key);
      && R[16 * r] == Xor(R[16 * r - 16], Xor(Substitute(R[16 * r - 3]), RoundConstant(r)))
      && R[16 * r + 1] == Xor(R[16 * r - 15], Substitute(R[16 * r - 2]))
      && R[16 * r + 2] == Xor(R[16 * r - 14], Substitute(R[16 * r - 1]))
      && R[16 * r + 3] == Xor(R[16 * r - 13], Substitute(R[16 * r - 4]))
  {
    hide RoundKeysOf, Substitute, RoundConstant, KeyWord, Xor;
    FirstWordOf(key, r);
    KeyByte(key, 4 * r, 16 * r);
    KeyByte(key, 4 * r, 16 * r + 1);
    KeyByte(key, 4 * r, 16 * r + 2);
    KeyByte(key, 4 * r, 16 * r + 3);
    KeyByte(key, 4 * r - 1, 16 * r - 4);
    KeyByte(key, 4 * r - 1, 16 * r - 3);
    KeyByte(key, 4 * r - 1, 16 * r - 2);
    KeyByte(key, 4 * r - 1, 16 * r - 1);
    KeyByte(key, 4 * r - 4, 16 * r - 16);
    KeyByte(key, 4 * r - 4, 16 * r - 15);
    KeyByte(key, 4 * r - 4, 16 * r - 14);
    KeyByte(key, 4 * r - 4, 16 * r - 13);
  }

  lemma FirstWordOf(key: Block, r: nat)
    requires 1 <= r <= 10
    ensures var w, before, four := KeyWord(key, 4 * r), KeyWord(key, 4 * r - 1), KeyWord(key, 4 * r - 4);
      && w[0] == Xor(four[0], Xor(Substitute(before[1]), RoundConstant(r)))
      && w[1] == Xor(four[1], Substitute(before[2]))
      && w[2] == Xor(four[2], Substitute(before[3]))
      && w[3] == Xor(four[3], Substitute(before[0]))
  {
    hide Substitute, RoundConstant, KeyWord, XorWord, Temporary, Xor;
    LaterWords(key, 4 * r);
    Constants(r);
    FirstTemporary(r, KeyWord(key, 4 * r - 1));
    WordSum(KeyWord(key, 4 * r - 4), Temporary(4 * r, KeyWord(key, 4 * r - 1)));
  }

  lemma WordSum(v: Word, w: Word)
    ensures XorWord(v, w) == [Xor(v[0], w[0]), Xor(v[1], w[1]), Xor(v[2], w[2]), Xor(v[3], w[3])]
  {
  }

  lemma FirstTemporary(r: nat, w: Word)
    requires 1 <= r <= 10
    ensures Temporary(4 * r, w)
         == [Xor(Substitute(w[1]), RCON[r]), Substitute(w[2]), Substitute(w[3]), Substitute(w[0])]
  {
    hide Substitute, XorWord;
    WithZeros(SubWord(RotWord(w)), RCON[r]);
  }

  /** The other bytes: the byte one word before is added to the byte four words before. */
  lemma ScheduleOtherWords(key: Block, r: nat, i: nat)
    requires 1 <= r <= 10 && 4 <= i < 16
    ensures var R := RoundKeysOf(key);
      R[16 * r + i] == Xor(R[16 * r + i - 16], R[16 * r + i - 4])
  {
    hide RoundKeysOf, KeyWord, XorWord, Substitute, Xor;
    var w := 4 * r + i / 4;
    assert w % 4 == i / 4;
    LaterWords(key, w);
    WordSum(KeyWord(key, w - 4), KeyWord(key, w - 1));
    KeyByte(key, w, 16 * r + i);
    KeyByte(key, w - 4, 16 * r + i - 16);
    KeyByte(key, w - 1, 16 * r + i - 4);
  }
}
