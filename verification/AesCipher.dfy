/** The loops of aes.c: the round steps, Cipher and InvCipher change a 16-byte
    state in place inside a larger buffer, and KeyExpansion fills the round keys. */
module AesCipher {
  import opened Bytes
  import opened AesTables
  import opened Aes

  /** The buffer s with the block at off replaced. */
  ghost function Patched(s: seq<Byte>, off: nat, block: seq<Byte>): (t: seq<Byte>)
    requires off + |block| <= |s|
    ensures |t| == |s|
  {
    s[..off] + block + s[off + |block|..]
  }

  /** The buffer is what it was before, but for the state st at off. */
  ghost predicate InPlace(buf: array<Byte>, off: nat, before: seq<Byte>, st: seq<Byte>)
    reads buf
  {
    |before| == buf.Length && |st| == 16 && off + 16 <= |before| && buf[..] == Patched(before, off, st)
  }

  method Read(buf: array<Byte>, off: nat, k: nat, ghost before: seq<Byte>, ghost st: seq<Byte>) returns (x: Byte)
    requires k < 16 && InPlace(buf, off, before, st)
    ensures |st| == 16 && x == st[k]
  {
    assert buf[..][off + k] == st[k];
    x := buf[off + k];
  }

  method Write(buf: array<Byte>, off: nat, k: nat, x: Byte, ghost before: seq<Byte>, ghost st: seq<Byte>)
    returns (ghost after: seq<Byte>)
    requires k < 16 && InPlace(buf, off, before, st)
    modifies buf
    ensures |st| == 16 && after == st[k := x] && InPlace(buf, off, before, after)
  {
    buf[off + k] := x;
    after := st[k := x];
  }

  /** Moves each of the bytes i, j, k and l of the state one place towards i. */
  method Rotate(buf: array<Byte>, off: nat, i: nat, j: nat, k: nat, l: nat,
                ghost before: seq<Byte>, ghost st: seq<Byte>) returns (ghost after: seq<Byte>)
    requires i < 16 && j < 16 && k < 16 && l < 16 && i != j && j != k && k != l && i != k && j != l && i != l
    requires InPlace(buf, off, before, st)
    modifies buf
    ensures |st| == 16 && after == st[i := st[j]][j := st[k]][k := st[l]][l := st[i]]
    ensures InPlace(buf, off, before, after)
  {
    hide InPlace;
    var temp := Read(buf, off, i, before, st);
    var x := Read(buf, off, j, before, st);
    after := Write(buf, off, i, x, before, st);
    x := Read(buf, off, k, before, after);
    after := Write(buf, off, j, x, before, after);
    x := Read(buf, off, l, before, after);
    after := Write(buf, off, k, x, before, after);
    after := Write(buf, off, l, temp, before, after);
  }

  method Swap(buf: array<Byte>, off: nat, i: nat, j: nat, ghost before: seq<Byte>, ghost st: seq<Byte>)
    returns (ghost after: seq<Byte>)
    requires i < 16 && j < 16 && i != j && InPlace(buf, off, before, st)
    modifies buf
    ensures |st| == 16 && after == st[i := st[j]][j := st[i]] && InPlace(buf, off, before, after)
  {
    hide InPlace;
    var temp := Read(buf, off, i, before, st);
    var x := Read(buf, off, j, before, st);
    after := Write(buf, off, i, x, before, st);
    after := Write(buf, off, j, temp, before, after);
  }

  method WriteColumn(buf: array<Byte>, off: nat, i: nat, x0: Byte, x1: Byte, x2: Byte, x3: Byte,
                     ghost before: seq<Byte>, ghost st: seq<Byte>) returns (ghost after: seq<Byte>)
    requires i < 4 && InPlace(buf, off, before, st)
    modifies buf
    ensures |st| == 16 && after == st[..4 * i] + [x0, x1, x2, x3] + st[4 * i + 4..]
    ensures InPlace(buf, off, before, after)
  {
    hide InPlace;
    after := Write(buf, off, 4 * i, x0, before, st);
    after := Write(buf, off, 4 * i + 1, x1, before, after);
    after := Write(buf, off, 4 * i + 2, x2, before, after);
    after := Write(buf, off, 4 * i + 3, x3, before, after);
    assert after == st[..4 * i] + [x0, x1, x2, x3] + st[4 * i + 4..];
  }

  method AddRoundKey(round: nat, buf: array<Byte>, off: nat, roundKey: array<Byte>, ghost before: seq<Byte>,
                     ghost b: Block)
    requires InPlace(buf, off, before, b) && roundKey != buf && 16 * round + 16 <= roundKey.Length
    modifies buf
    ensures InPlace(buf, off, before, AddRoundKeyOf(round, b, roundKey[..]))
  {
    hide InPlace;
    ghost var st: seq<Byte> := b;
    ghost var added := AddRoundKeyOf(round, b, roundKey[..]);
    for i := 0 to 4
      invariant InPlace(buf, off, before, st) && st == added[..4 * i] + b[4 * i..]
    {
      for j := 0 to 4
        invariant InPlace(buf, off, before, st) && st == added[..4 * i + j] + b[4 * i + j..]
      {
        var x := Read(buf, off, 4 * i + j, before, st);
        st := Write(buf, off, 4 * i + j, x ^ roundKey[(round * 4 * 4) + (i * 4) + j], before, st);
      }
    }
    assert st == added;
  }

  method SubBytes(buf: array<Byte>, off: nat, ghost before: seq<Byte>, ghost b: Block)
    requires InPlace(buf, off, before, b)
    modifies buf
    ensures InPlace(buf, off, before, SubBytesOf(b))
  {
    hide InPlace, Substitute;
    ghost var st: seq<Byte> := b;
    for i := 0 to 4
      invariant InPlace(buf, off, before, st)
      invariant |st| == 16 && forall k | 0 <= k < 16 :: st[k] == if k % 4 < i then Substitute(b[k]) else b[k]
    {
      for j := 0 to 4
        invariant InPlace(buf, off, before, st)
        invariant |st| == 16 && forall k | 0 <= k < 16 ::
          st[k] == if k % 4 < i || (k % 4 == i && k / 4 < j) then Substitute(b[k]) else b[k]
      {
        var x := Read(buf, off, 4 * j + i, before, st);
        st := Write(buf, off, 4 * j + i, Substitute(x), before, st);
      }
    }
    assert st == SubBytesOf(b);
  }

  method InvSubBytes(buf: array<Byte>, off: nat, ghost before: seq<Byte>, ghost b: Block)
    requires InPlace(buf, off, before, b)
    modifies buf
    ensures InPlace(buf, off, before, InvSubBytesOf(b))
  {
    hide InPlace, InvSubstitute;
    ghost var st: seq<Byte> := b;
    for i := 0 to 4
      invariant InPlace(buf, off, before, st)
      invariant |st| == 16 && forall k | 0 <= k < 16 :: st[k] == if k % 4 < i then InvSubstitute(b[k]) else b[k]
    {
      for j := 0 to 4
        invariant InPlace(buf, off, before, st)
        invariant |st| == 16 && forall k | 0 <= k < 16 ::
          st[k] == if k % 4 < i || (k % 4 == i && k / 4 < j) then InvSubstitute(b[k]) else b[k]
      {
        var x := Read(buf, off, 4 * j + i, before, st);
        st := Write(buf, off, 4 * j + i, InvSubstitute(x), before, st);
      }
    }
    assert st == InvSubBytesOf(b);
  }

  method ShiftRows(buf: array<Byte>, off: nat, ghost before: seq<Byte>, ghost b: Block)
    requires InPlace(buf, off, before, b)
    modifies buf
    ensures InPlace(buf, off, before, ShiftRowsOf(b))
  {
    hide InPlace;
    ghost var st := Rotate(buf, off, 1, 5, 9, 13, before, b);
    st := Swap(buf, off, 2, 10, before, st);
    st := Swap(buf, off, 6, 14, before, st);
    st := Rotate(buf, off, 3, 15, 11, 7, before, st);
    assert st == ShiftRowsOf(b);
  }

  method InvShiftRows(buf: array<Byte>, off: nat, ghost before: seq<Byte>, ghost b: Block)
    requires InPlace(buf, off, before, b)
    modifies buf
    ensures InPlace(buf, off, before, InvShiftRowsOf(b))
  {
    hide InPlace;
    ghost var st := Rotate(buf, off, 13, 9, 5, 1, before, b);
    st := Swap(buf, off, 2, 10, before, st);
    st := Swap(buf, off, 6, 14, before, st);
    st := Rotate(buf, off, 3, 7, 11, 15, before, st);
    assert st == InvShiftRowsOf(b);
  }

  /** A column that has not been reached is mixed as it was at first. */
  lemma ColumnOfState(st: Block, b: Block, i: nat)
    requires i <= 12 && st[i..] == b[i..]
    ensures MixedColumn(st, i) == MixedColumn(b, i) && UnmixedColumn(st, i) == UnmixedColumn(b, i)
  {
    hide MixedByte, Combined, ColumnSum;
    assert forall k | 0 <= k < 4 :: st[i..][k] == b[i..][k];
    assert st[i] == b[i] && st[i + 1] == b[i + 1] && st[i + 2] == b[i + 2] && st[i + 3] == b[i + 3];
  }

  lemma OneMoreColumn(b: Block, mixed: Block, st: Block, column: seq<Byte>, i: nat)
    requires i < 4 && st == mixed[..4 * i] + b[4 * i..] && column == mixed[4 * i..4 * i + 4]
    ensures st[..4 * i] + column + st[4 * i + 4..] == mixed[..4 * i + 4] + b[4 * i + 4..]
  {
  }

  method MixColumn(buf: array<Byte>, off: nat, i: nat, ghost before: seq<Byte>, ghost st: Block)
    returns (ghost after: seq<Byte>)
    requires i < 4 && InPlace(buf, off, before, st)
    modifies buf
    ensures after == st[..4 * i] + MixedColumn(st, 4 * i) + st[4 * i + 4..]
    ensures InPlace(buf, off, before, after)
  {
    hide InPlace, MixedByte, ColumnSum;
    var s0 := Read(buf, off, 4 * i, before, st);
    var s1 := Read(buf, off, 4 * i + 1, before, st);
    var s2 := Read(buf, off, 4 * i + 2, before, st);
    var s3 := Read(buf, off, 4 * i + 3, before, st);
    var all := ColumnSum(s0, s1, s2, s3);
    after := WriteColumn(buf, off, i, MixedByte(s0, s1, all), MixedByte(s1, s2, all),
                      MixedByte(s2, s3, all), MixedByte(s3, s0, all), before, st);
  }

  method MixColumns(buf: array<Byte>, off: nat, ghost before: seq<Byte>, ghost b: Block)
    requires InPlace(buf, off, before, b)
    modifies buf
    ensures InPlace(buf, off, before, MixColumnsOf(b))
  {
    hide InPlace, MixedColumn, MixColumnsOf;
    ghost var st: seq<Byte> := b;
    for i := 0 to 4
      invariant InPlace(buf, off, before, st)
      invariant st == MixColumnsOf(b)[..4 * i] + b[4 * i..]
    {
      ColumnOf(b, i);
      assert st[4 * i..] == b[4 * i..];
      ColumnOfState(st, b, 4 * i);
      OneMoreColumn(b, MixColumnsOf(b), st, MixedColumn(st, 4 * i), i);
      st := MixColumn(buf, off, i, before, st);
    }
    assert st == MixColumnsOf(b);
  }

  method InvMixColumn(buf: array<Byte>, off: nat, i: nat, ghost before: seq<Byte>, ghost st: Block)
    returns (ghost after: seq<Byte>)
    requires i < 4 && InPlace(buf, off, before, st)
    modifies buf
    ensures after == st[..4 * i] + UnmixedColumn(st, 4 * i) + st[4 * i + 4..]
    ensures InPlace(buf, off, before, after)
  {
    hide InPlace, Combined;
    var s0 := Read(buf, off, 4 * i, before, st);
    var s1 := Read(buf, off, 4 * i + 1, before, st);
    var s2 := Read(buf, off, 4 * i + 2, before, st);
    var s3 := Read(buf, off, 4 * i + 3, before, st);
    after := WriteColumn(buf, off, i,
      Combined(s0, 0x0e, s1, 0x0b, s2, 0x0d, s3, 0x09), Combined(s0, 0x09, s1, 0x0e, s2, 0x0b, s3, 0x0d),
      Combined(s0, 0x0d, s1, 0x09, s2, 0x0e, s3, 0x0b), Combined(s0, 0x0b, s1, 0x0d, s2, 0x09, s3, 0x0e),
      before, st);
  }

  method InvMixColumns(buf: array<Byte>, off: nat, ghost before: seq<Byte>, ghost b: Block)
    requires InPlace(buf, off, before, b)
    modifies buf
    ensures InPlace(buf, off, before, InvMixColumnsOf(b))
  {
    hide InPlace, UnmixedColumn, InvMixColumnsOf;
    ghost var st: seq<Byte> := b;
    for i := 0 to 4
      invariant InPlace(buf, off, before, st)
      invariant st == InvMixColumnsOf(b)[..4 * i] + b[4 * i..]
    {
      ColumnOf(b, i);
      assert st[4 * i..] == b[4 * i..];
      ColumnOfState(st, b, 4 * i);
      OneMoreColumn(b, InvMixColumnsOf(b), st, UnmixedColumn(st, 4 * i), i);
      st := InvMixColumn(buf, off, i, before, st);
    }
    assert st == InvMixColumnsOf(b);
  }

  method Cipher(buf: array<Byte>, off: nat, roundKey: array<Byte>, ghost before: seq<Byte>, ghost b: Block)
    requires InPlace(buf, off, before, b) && roundKey != buf && roundKey.Length == EXPANDED_LENGTH
    modifies buf
    ensures InPlace(buf, off, before, CipherOf(b, roundKey[..]))
  {
    hide InPlace, SubBytesOf, ShiftRowsOf, MixColumnsOf, AddRoundKeyOf;
    ghost var key := roundKey[..];
    AddRoundKey(0, buf, off, roundKey, before, b);
    var round := 1;
    while true
      invariant 1 <= round <= NR && roundKey[..] == key
      invariant InPlace(buf, off, before, Rounds(b, key, round - 1))
      decreases NR - round
    {
      ghost var st := Rounds(b, key, round - 1);
      SubBytes(buf, off, before, st);
      ShiftRows(buf, off, before, SubBytesOf(st));
      if round == NR {
        break;
      }
      MixColumns(buf, off, before, ShiftRowsOf(SubBytesOf(st)));
      AddRoundKey(round, buf, off, roundKey, before, MixColumnsOf(ShiftRowsOf(SubBytesOf(st))));
      round := round + 1;
    }
    AddRoundKey(NR, buf, off, roundKey, before, ShiftRowsOf(SubBytesOf(Rounds(b, key, NR - 1))));
  }

  method InvCipher(buf: array<Byte>, off: nat, roundKey: array<Byte>, ghost before: seq<Byte>, ghost b: Block)
    requires InPlace(buf, off, before, b) && roundKey != buf && roundKey.Length == EXPANDED_LENGTH
    modifies buf
    ensures InPlace(buf, off, before, InvCipherOf(b, roundKey[..]))
  {
    hide InPlace, InvSubBytesOf, InvShiftRowsOf, InvMixColumnsOf, AddRoundKeyOf;
    ghost var key := roundKey[..];
    AddRoundKey(NR, buf, off, roundKey, before, b);
    var round := NR - 1;
    while true
      invariant 0 <= round < NR && roundKey[..] == key
      invariant InPlace(buf, off, before, InvRounds(b, key, NR - 1 - round))
      decreases round
    {
      ghost var st := InvRounds(b, key, NR - 1 - round);
      InvShiftRows(buf, off, before, st);
      InvSubBytes(buf, off, before, InvShiftRowsOf(st));
      AddRoundKey(round, buf, off, roundKey, before, InvSubBytesOf(InvShiftRowsOf(st)));
      if round == 0 {
        break;
      }
      InvMixColumns(buf, off, before, AddRoundKeyOf(round, InvSubBytesOf(InvShiftRowsOf(st)), key));
      round := round - 1;
    }
  }

  // ---------- the key schedule ----------

  const RCON: seq<Byte> := [0x8d, 0x01, 0x02, 0x04, 0x08, 0x10, 0x20, 0x40, 0x80, 0x1b, 0x36]

  type Word = w: seq<Byte> | |w| == 4 witness [0, 0, 0, 0]

  function SubWord(w: Word): Word {
    [Substitute(w[0]), Substitute(w[1]), Substitute(w[2]), Substitute(w[3])]
  }

  function RotWord(w: Word): Word {
    [w[1], w[2], w[3], w[0]]
  }

  function XorWord(v: Word, w: Word): Word {
    [v[0] ^ w[0], v[1] ^ w[1], v[2] ^ w[2], v[3] ^ w[3]]
  }

  /** What word i adds to word i - NK, from the word before it. */
  function Temporary(i: nat, w: Word): Word
    requires i / NK < 11
  {
    if i % NK == 0 then XorWord(SubWord(RotWord(w)), [RCON[i / NK], 0, 0, 0]) else w
  }

  /** Word i of the key schedule of section 5.2 of FIPS 197. */
  function KeyWord(key: Block, i: nat): Word
    requires i < 4 * (NR + 1)
  {
    if i < NK then key[4 * i..4 * i + 4]
    else XorWord(KeyWord(key, i - NK), Temporary(i, KeyWord(key, i - 1)))
  }

  /** All the words of the key schedule. */
  function RoundKeysOf(key: Block): (roundKey: seq<Byte>)
    ensures |roundKey| == EXPANDED_LENGTH
  {
    seq(EXPANDED_LENGTH, i requires 0 <= i < EXPANDED_LENGTH => KeyWord(key, i / 4)[i % 4])
  }

  lemma WordsMakeKeys(key: Block, roundKey: seq<Byte>)
    requires |roundKey| == EXPANDED_LENGTH
    requires forall i | 0 <= i < 4 * (NR + 1) :: roundKey[4 * i..4 * i + 4] == KeyWord(key, i)
    ensures roundKey == RoundKeysOf(key)
  {
    hide KeyWord;
    forall i | 0 <= i < EXPANDED_LENGTH ensures roundKey[i] == KeyWord(key, i / 4)[i % 4] {
      assert roundKey[4 * (i / 4)..4 * (i / 4) + 4][i % 4] == roundKey[i];
    }
  }

  method KeyExpansion(roundKey: array<Byte>, key: array<Byte>)
    requires roundKey.Length == EXPANDED_LENGTH && key.Length == 16 && roundKey != key
    modifies roundKey
    ensures roundKey[..] == RoundKeysOf(key[..])
  {
    hide KeyWord, Temporary;
    ghost var k: Block := key[..];
    for i := 0 to NK
      invariant key[..] == k && Expanded(roundKey, k, i)
    {
      FirstWords(k, i);
      ghost var done := roundKey[..];
      PutWord(roundKey, 4 * i, key[4 * i + 0], key[4 * i + 1], key[4 * i + 2], key[4 * i + 3]);
      assert k[4 * i..4 * i + 4] == [key[4 * i], key[4 * i + 1], key[4 * i + 2], key[4 * i + 3]];
      forall j | 0 <= j < i ensures roundKey[4 * j..4 * j + 4] == KeyWord(k, j) {
        assert roundKey[4 * j..4 * j + 4] == done[4 * j..4 * j + 4];
      }
    }
    for i := NK to 4 * (NR + 1)
      invariant key[..] == k && Expanded(roundKey, k, i)
    {
      NextWord(roundKey, i, k);
    }
    WordsMakeKeys(k, roundKey[..]);
  }

  /** The first n words are in place. */
  ghost predicate Expanded(roundKey: array<Byte>, key: Block, n: nat)
    reads roundKey
  {
    roundKey.Length == EXPANDED_LENGTH && n <= 4 * (NR + 1) &&
    forall i | 0 <= i < n :: roundKey[4 * i..4 * i + 4] == KeyWord(key, i)
  }

  lemma FirstWords(key: Block, i: nat)
    requires i < NK
    ensures KeyWord(key, i) == key[4 * i..4 * i + 4]
  {
  }

  lemma LaterWords(key: Block, i: nat)
    requires NK <= i < 4 * (NR + 1)
    ensures KeyWord(key, i) == XorWord(KeyWord(key, i - NK), Temporary(i, KeyWord(key, i - 1)))
  {
  }

  lemma WithZeros(w: Word, r: Byte)
    ensures XorWord(w, [r, 0, 0, 0]) == [w[0] ^ r, w[1], w[2], w[3]]
  {
  }

  method PutWord(roundKey: array<Byte>, off: nat, x0: Byte, x1: Byte, x2: Byte, x3: Byte)
    requires off + 4 <= roundKey.Length
    modifies roundKey
    ensures roundKey[off..off + 4] == [x0, x1, x2, x3]
    ensures forall j | 0 <= j < off :: roundKey[j] == old(roundKey[j])
  {
    roundKey[off + 0] := x0;
    roundKey[off + 1] := x1;
    roundKey[off + 2] := x2;
    roundKey[off + 3] := x3;
  }

  lemma XorOf(v: Word, w: Word)
    ensures XorWord(v, w) == [v[0] ^ w[0], v[1] ^ w[1], v[2] ^ w[2], v[3] ^ w[3]]
  {
  }

  /** The word that the temporary word makes of word i - NK goes to place i. */
  method StoreWord(roundKey: array<Byte>, i: nat, tempa: Word, ghost key: Block)
    requires NK <= i < 4 * (NR + 1) && Expanded(roundKey, key, i)
    requires tempa == Temporary(i, KeyWord(key, i - 1))
    modifies roundKey
    ensures Expanded(roundKey, key, i + 1)
  {
    hide KeyWord, Temporary, Substitute, XorWord;
    LaterWords(key, i);
    ghost var before := roundKey[..];
    assert roundKey[4 * (i - NK)..4 * (i - NK) + 4] == KeyWord(key, i - NK);
    var k := (i - NK) * 4;
    XorOf(roundKey[k..k + 4], tempa);
    PutWord(roundKey, i * 4, roundKey[k + 0] ^ tempa[0], roundKey[k + 1] ^ tempa[1],
            roundKey[k + 2] ^ tempa[2], roundKey[k + 3] ^ tempa[3]);
    forall j | 0 <= j < i ensures roundKey[4 * j..4 * j + 4] == KeyWord(key, j) {
      assert roundKey[4 * j..4 * j + 4] == before[4 * j..4 * j + 4];
    }
  }

  method NextWord(roundKey: array<Byte>, i: nat, ghost key: Block)
    requires NK <= i < 4 * (NR + 1) && Expanded(roundKey, key, i)
    modifies roundKey
    ensures Expanded(roundKey, key, i + 1)
  {
    hide KeyWord, Substitute, XorWord;
    var k := (i - 1) * 4;
    var tempa: Word := [roundKey[k + 0], roundKey[k + 1], roundKey[k + 2], roundKey[k + 3]];
    assert tempa == roundKey[4 * (i - 1)..4 * (i - 1) + 4] == KeyWord(key, i - 1);
    if i % NK == 0 {
      var u8tmp := tempa[0];
      tempa := [tempa[1], tempa[2], tempa[3], u8tmp];
      tempa := SubWord(tempa);
      WithZeros(tempa, RCON[i / NK]);
      tempa := [tempa[0] ^ RCON[i / NK], tempa[1], tempa[2], tempa[3]];
    }
    StoreWord(roundKey, i, tempa, key);
  }
}
