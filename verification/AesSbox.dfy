/** The substitution table of aes.c is the one of section 5.1.1 of FIPS 197: the
    inverse in GF(2^8), then an affine map. */
module AesSbox {
  import opened Bytes
  import opened AesTables
  import opened Aes

  /** The product in GF(2^8), bit by bit of y. */
  function Product(x: Byte, y: Byte): Byte {
    var x1 := Xtime(x);
    var x2 := Xtime(x1);
    var x3 := Xtime(x2);
    var x4 := Xtime(x3);
    var x5 := Xtime(x4);
    var x6 := Xtime(x5);
    var x7 := Xtime(x6);
    ((y & 1) * x) ^ (((y >> 1) & 1) * x1) ^ (((y >> 2) & 1) * x2) ^ (((y >> 3) & 1) * x3)
    ^ (((y >> 4) & 1) * x4) ^ (((y >> 5) & 1) * x5) ^ (((y >> 6) & 1) * x6) ^ (((y >> 7) & 1) * x7)
  }

  function Rotated(x: Byte, n: nat): Byte
    requires n < 8
  {
    (x << n) | (x >> (8 - n))
  }

  function Affine(x: Byte): Byte {
    x ^ Rotated(x, 1) ^ Rotated(x, 2) ^ Rotated(x, 3) ^ Rotated(x, 4) ^ 0x63
  }

  function AffineInverse(y: Byte): Byte {
    Rotated(y, 1) ^ Rotated(y, 3) ^ Rotated(y, 6) ^ 0x05
  }

  lemma AffineUndone(y: Byte)
    ensures Affine(AffineInverse(y)) == y
  {
  }

  predicate Right(x: Byte, y: Byte) {
    var i := AffineInverse(y);
    if x == 0 then i == 0 else Product(x, i) == 1
  }

  predicate Entry(r: nat, c: nat)
    requires r < 16 && c < 16
  {
    TableShape();
    SBOX[r][c] < 256 && Right(ByteOf(16 * r + c), ByteOf(SBOX[r][c]))
  }

  predicate RowRight(r: nat)
    requires r < 16
  {
    && Entry(r, 0) && Entry(r, 1) && Entry(r, 2) && Entry(r, 3) && Entry(r, 4) && Entry(r, 5)
    && Entry(r, 6) && Entry(r, 7) && Entry(r, 8) && Entry(r, 9) && Entry(r, 10) && Entry(r, 11)
    && Entry(r, 12) && Entry(r, 13) && Entry(r, 14) && Entry(r, 15)
  }

  // The table is checked row by row.

  /** The byte x + k, of value n, is replaced by the byte y. */
  predicate Maps(x: Byte, k: Byte, n: int, y: Byte) {
    ValueOf(x + k) == n && Right(x + k, y)
  }

  lemma EntryOf(r: nat, c: nat, x: Byte, k: Byte, y: Byte)
    requires r < 16 && c < 16 && |SBOX[r]| == 16 && SBOX[r][c] == ValueOf(y) && Maps(x, k, 16 * r + c, y)
    ensures Entry(r, c)
  {
    hide Right;
    ValueRoundTrip(x + k);
    ValueRoundTrip(y);
  }

  /** A row that consists of these sixteen bytes, the first of them for x. */
  lemma RowOf(r: nat, x: Byte, b0: Byte, b1: Byte, b2: Byte, b3: Byte, b4: Byte, b5: Byte, b6: Byte,
              b7: Byte, b8: Byte, b9: Byte, b10: Byte, b11: Byte, b12: Byte, b13: Byte, b14: Byte, b15: Byte)
    requires r < 16 && SBOX[r] ==
      [ValueOf(b0), ValueOf(b1), ValueOf(b2), ValueOf(b3), ValueOf(b4), ValueOf(b5), ValueOf(b6), ValueOf(b7),
       ValueOf(b8), ValueOf(b9), ValueOf(b10), ValueOf(b11), ValueOf(b12), ValueOf(b13), ValueOf(b14), ValueOf(b15)]
    requires Maps(x, 0, 16 * r + 0, b0) && Maps(x, 1, 16 * r + 1, b1) && Maps(x, 2, 16 * r + 2, b2)
    requires Maps(x, 3, 16 * r + 3, b3) && Maps(x, 4, 16 * r + 4, b4) && Maps(x, 5, 16 * r + 5, b5)
    requires Maps(x, 6, 16 * r + 6, b6) && Maps(x, 7, 16 * r + 7, b7) && Maps(x, 8, 16 * r + 8, b8)
    requires Maps(x, 9, 16 * r + 9, b9) && Maps(x, 10, 16 * r + 10, b10) && Maps(x, 11, 16 * r + 11, b11)
    requires Maps(x, 12, 16 * r + 12, b12) && Maps(x, 13, 16 * r + 13, b13) && Maps(x, 14, 16 * r + 14, b14)
    requires Maps(x, 15, 16 * r + 15, b15)
    ensures RowRight(r)
  {
    hide Maps, ValueOf, Entry, SBOX;
    TableShape();
    var row := SBOX[r];
    assert row[0] == ValueOf(b0) && row[1] == ValueOf(b1) && row[2] == ValueOf(b2) && row[3] == ValueOf(b3);
    assert row[4] == ValueOf(b4) && row[5] == ValueOf(b5) && row[6] == ValueOf(b6) && row[7] == ValueOf(b7);
    assert row[8] == ValueOf(b8) && row[9] == ValueOf(b9) && row[10] == ValueOf(b10) && row[11] == ValueOf(b11);
    assert row[12] == ValueOf(b12) && row[13] == ValueOf(b13) && row[14] == ValueOf(b14) && row[15] == ValueOf(b15);
    EntryOf(r, 0, x, 0, b0); EntryOf(r, 1, x, 1, b1); EntryOf(r, 2, x, 2, b2); EntryOf(r, 3, x, 3, b3);
    EntryOf(r, 4, x, 4, b4); EntryOf(r, 5, x, 5, b5); EntryOf(r, 6, x, 6, b6); EntryOf(r, 7, x, 7, b7);
    EntryOf(r, 8, x, 8, b8); EntryOf(r, 9, x, 9, b9); EntryOf(r, 10, x, 10, b10); EntryOf(r, 11, x, 11, b11);
    EntryOf(r, 12, x, 12, b12); EntryOf(r, 13, x, 13, b13); EntryOf(r, 14, x, 14, b14); EntryOf(r, 15, x, 15, b15);
  }

  lemma Row0() ensures RowRight(0) {
    RowOf(0, 0x00, 0x63, 0x7c, 0x77, 0x7b, 0xf2, 0x6b, 0x6f, 0xc5, 0x30, 0x01, 0x67, 0x2b, 0xfe, 0xd7, 0xab, 0x76);
  }

  lemma Row1() ensures RowRight(1) {
    RowOf(1, 0x10, 0xca, 0x82, 0xc9, 0x7d, 0xfa, 0x59, 0x47, 0xf0, 0xad, 0xd4, 0xa2, 0xaf, 0x9c, 0xa4, 0x72, 0xc0);
  }

  lemma Row2() ensures RowRight(2) {
    RowOf(2, 0x20, 0xb7, 0xfd, 0x93, 0x26, 0x36, 0x3f, 0xf7, 0xcc, 0x34, 0xa5, 0xe5, 0xf1, 0x71, 0xd8, 0x31, 0x15);
  }

  lemma Row3() ensures RowRight(3) {
    RowOf(3, 0x30, 0x04, 0xc7, 0x23, 0xc3, 0x18, 0x96, 0x05, 0x9a, 0x07, 0x12, 0x80, 0xe2, 0xeb, 0x27, 0xb2, 0x75);
  }

  lemma Row4() ensures RowRight(4) {
    RowOf(4, 0x40, 0x09, 0x83, 0x2c, 0x1a, 0x1b, 0x6e, 0x5a, 0xa0, 0x52, 0x3b, 0xd6, 0xb3, 0x29, 0xe3, 0x2f, 0x84);
  }

  lemma Row5() ensures RowRight(5) {
    RowOf(5, 0x50, 0x53, 0xd1, 0x00, 0xed, 0x20, 0xfc, 0xb1, 0x5b, 0x6a, 0xcb, 0xbe, 0x39, 0x4a, 0x4c, 0x58, 0xcf);
  }

  lemma Row6() ensures RowRight(6) {
    RowOf(6, 0x60, 0xd0, 0xef, 0xaa, 0xfb, 0x43, 0x4d, 0x33, 0x85, 0x45, 0xf9, 0x02, 0x7f, 0x50, 0x3c, 0x9f, 0xa8);
  }

  lemma Row7() ensures RowRight(7) {
    RowOf(7, 0x70, 0x51, 0xa3, 0x40, 0x8f, 0x92, 0x9d, 0x38, 0xf5, 0xbc, 0xb6, 0xda, 0x21, 0x10, 0xff, 0xf3, 0xd2);
  }

  lemma Row8() ensures RowRight(8) {
    RowOf(8, 0x80, 0xcd, 0x0c, 0x13, 0xec, 0x5f, 0x97, 0x44, 0x17, 0xc4, 0xa7, 0x7e, 0x3d, 0x64, 0x5d, 0x19, 0x73);
  }

  lemma Row9() ensures RowRight(9) {
    RowOf(9, 0x90, 0x60, 0x81, 0x4f, 0xdc, 0x22, 0x2a, 0x90, 0x88, 0x46, 0xee, 0xb8, 0x14, 0xde, 0x5e, 0x0b, 0xdb);
  }

  lemma Row10() ensures RowRight(10) {
    RowOf(10, 0xa0, 0xe0, 0x32, 0x3a, 0x0a, 0x49, 0x06, 0x24, 0x5c, 0xc2, 0xd3, 0xac, 0x62, 0x91, 0x95, 0xe4, 0x79);
  }

  lemma Row11() ensures RowRight(11) {
    RowOf(11, 0xb0, 0xe7, 0xc8, 0x37, 0x6d, 0x8d, 0xd5, 0x4e, 0xa9, 0x6c, 0x56, 0xf4, 0xea, 0x65, 0x7a, 0xae, 0x08);
  }

  lemma Row12() ensures RowRight(12) {
    RowOf(12, 0xc0, 0xba, 0x78, 0x25, 0x2e, 0x1c, 0xa6, 0xb4, 0xc6, 0xe8, 0xdd, 0x74, 0x1f, 0x4b, 0xbd, 0x8b, 0x8a);
  }

  lemma Row13() ensures RowRight(13) {
    RowOf(13, 0xd0, 0x70, 0x3e, 0xb5, 0x66, 0x48, 0x03, 0xf6, 0x0e, 0x61, 0x35, 0x57, 0xb9, 0x86, 0xc1, 0x1d, 0x9e);
  }

  lemma Row14() ensures RowRight(14) {
    RowOf(14, 0xe0, 0xe1, 0xf8, 0x98, 0x11, 0x69, 0xd9, 0x8e, 0x94, 0x9b, 0x1e, 0x87, 0xe9, 0xce, 0x55, 0x28, 0xdf);
  }

  lemma Row15() ensures RowRight(15) {
    RowOf(15, 0xf0, 0x8c, 0xa1, 0x89, 0x0d, 0xbf, 0xe6, 0x42, 0x68, 0x41, 0x99, 0x2d, 0x0f, 0xb0, 0x54, 0xbb, 0x16);
  }

  lemma AllRight(r: nat, c: nat)
    requires r < 16 && c < 16
    ensures Entry(r, c)
  {
    hide Entry;
    Row0(); Row1(); Row2(); Row3(); Row4(); Row5(); Row6(); Row7();
    Row8(); Row9(); Row10(); Row11(); Row12(); Row13(); Row14(); Row15();
    assert RowRight(r);
  }

  /** Every byte is replaced by the affine image of its inverse in the field, zero
      by that of zero. */
  lemma SubstituteIsAffineInverse(x: Byte)
    ensures var i := AffineInverse(Substitute(x));
      && Substitute(x) == Affine(i)
      && (if x == 0 then i == 0 else Product(x, i) == 1)
  {
    hide ByteOf, ValueOf, SBOX, Affine, AffineInverse, Product;
    var r, c := ValueOf(x) / 16, ValueOf(x) % 16;
    AllRight(r, c);
    ValueRoundTrip(x);
    AffineUndone(Substitute(x));
    assert 16 * r + c == ValueOf(x);
  }
}
