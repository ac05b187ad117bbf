/** The example of Appendix B of FIPS 197, worked out step by step: the round keys of
    one key, and one block under them. */
module AesVectors {
  import opened Bytes
  import opened AesTables
  import opened Aes
  import opened AesCipher
  import opened AesFips

  // ---------- the substitution table as bytes ----------

  lemma EntryIs(r: nat, c: nat, x: Byte, y: Byte)
    requires r < 16 && c < 16 && ValueOf(x) == 16 * r + c
    requires |SBOX| == 16 && |SBOX[r]| == 16 && SBOX[r][c] == ValueOf(y)
    ensures Substitute(x) == y
  {
    hide SBOX, ValueOf;
    ValueRoundTrip(y);
  }

  /** Eight entries of row r, from column c on; x is the byte of the first of them. */
  lemma HalfRow(r: nat, c: nat, x: Byte, half: seq<Byte>)
    requires r < 16 && (c == 0 || c == 8) && ValueOf(x) == 16 * r + c && x & 0x07 == 0
    requires |half| == 8 && |SBOX| == 16 && |SBOX[r]| == 16
    requires SBOX[r][c + 0] == ValueOf(half[0]) && SBOX[r][c + 1] == ValueOf(half[1])
    requires SBOX[r][c + 2] == ValueOf(half[2]) && SBOX[r][c + 3] == ValueOf(half[3])
    requires SBOX[r][c + 4] == ValueOf(half[4]) && SBOX[r][c + 5] == ValueOf(half[5])
    requires SBOX[r][c + 6] == ValueOf(half[6]) && SBOX[r][c + 7] == ValueOf(half[7])
    ensures Substitute(x | 0) == half[0] && Substitute(x | 1) == half[1]
    ensures Substitute(x | 2) == half[2] && Substitute(x | 3) == half[3]
    ensures Substitute(x | 4) == half[4] && Substitute(x | 5) == half[5]
    ensures Substitute(x | 6) == half[6] && Substitute(x | 7) == half[7]
  {
    LowBits(x);
    hide ValueOf, SBOX, Substitute;
    EntryIs(r, c + 0, x | 0, half[0]); EntryIs(r, c + 1, x | 1, half[1]);
    EntryIs(r, c + 2, x | 2, half[2]); EntryIs(r, c + 3, x | 3, half[3]);
    EntryIs(r, c + 4, x | 4, half[4]); EntryIs(r, c + 5, x | 5, half[5]);
    EntryIs(r, c + 6, x | 6, half[6]); EntryIs(r, c + 7, x | 7, half[7]);
  }

  lemma LowBits(x: Byte)
    requires x & 0x07 == 0
    ensures ValueOf(x | 0) == ValueOf(x) + 0 && ValueOf(x | 1) == ValueOf(x) + 1
    ensures ValueOf(x | 2) == ValueOf(x) + 2 && ValueOf(x | 3) == ValueOf(x) + 3
    ensures ValueOf(x | 4) == ValueOf(x) + 4 && ValueOf(x | 5) == ValueOf(x) + 5
    ensures ValueOf(x | 6) == ValueOf(x) + 6 && ValueOf(x | 7) == ValueOf(x) + 7
  {
  }

  lemma Half0a()
    ensures Substitute(0x00) == 0x63 && Substitute(0x01) == 0x7c && Substitute(0x02) == 0x77 && Substitute(0x03) == 0x7b
    ensures Substitute(0x04) == 0xf2 && Substitute(0x05) == 0x6b && Substitute(0x06) == 0x6f && Substitute(0x07) == 0xc5
  {
    hide Substitute;
    HalfRow(0, 0, 0x00, [0x63, 0x7c, 0x77, 0x7b, 0xf2, 0x6b, 0x6f, 0xc5]);
  }

  lemma Half0b()
    ensures Substitute(0x08) == 0x30 && Substitute(0x09) == 0x01 && Substitute(0x0a) == 0x67 && Substitute(0x0b) == 0x2b
    ensures Substitute(0x0c) == 0xfe && Substitute(0x0d) == 0xd7 && Substitute(0x0e) == 0xab && Substitute(0x0f) == 0x76
  {
    hide Substitute;
    HalfRow(0, 8, 0x08, [0x30, 0x01, 0x67, 0x2b, 0xfe, 0xd7, 0xab, 0x76]);
  }

  lemma Half1a()
    ensures Substitute(0x10) == 0xca && Substitute(0x11) == 0x82 && Substitute(0x12) == 0xc9 && Substitute(0x13) == 0x7d
    ensures Substitute(0x14) == 0xfa && Substitute(0x15) == 0x59 && Substitute(0x16) == 0x47 && Substitute(0x17) == 0xf0
  {
    hide Substitute;
    HalfRow(1, 0, 0x10, [0xca, 0x82, 0xc9, 0x7d, 0xfa, 0x59, 0x47, 0xf0]);
  }

  lemma Half1b()
    ensures Substitute(0x18) == 0xad && Substitute(0x19) == 0xd4 && Substitute(0x1a) == 0xa2 && Substitute(0x1b) == 0xaf
    ensures Substitute(0x1c) == 0x9c && Substitute(0x1d) == 0xa4 && Substitute(0x1e) == 0x72 && Substitute(0x1f) == 0xc0
  {
    hide Substitute;
    HalfRow(1, 8, 0x18, [0xad, 0xd4, 0xa2, 0xaf, 0x9c, 0xa4, 0x72, 0xc0]);
  }

  lemma Half2a()
    ensures Substitute(0x20) == 0xb7 && Substitute(0x21) == 0xfd && Substitute(0x22) == 0x93 && Substitute(0x23) == 0x26
    ensures Substitute(0x24) == 0x36 && Substitute(0x25) == 0x3f && Substitute(0x26) == 0xf7 && Substitute(0x27) == 0xcc
  {
    hide Substitute;
    HalfRow(2, 0, 0x20, [0xb7, 0xfd, 0x93, 0x26, 0x36, 0x3f, 0xf7, 0xcc]);
  }

  lemma Half2b()
    ensures Substitute(0x28) == 0x34 && Substitute(0x29) == 0xa5 && Substitute(0x2a) == 0xe5 && Substitute(0x2b) == 0xf1
    ensures Substitute(0x2c) == 0x71 && Substitute(0x2d) == 0xd8 && Substitute(0x2e) == 0x31 && Substitute(0x2f) == 0x15
  {
    hide Substitute;
    HalfRow(2, 8, 0x28, [0x34, 0xa5, 0xe5, 0xf1, 0x71, 0xd8, 0x31, 0x15]);
  }

  lemma Half3a()
    ensures Substitute(0x30) == 0x04 && Substitute(0x31) == 0xc7 && Substitute(0x32) == 0x23 && Substitute(0x33) == 0xc3
    ensures Substitute(0x34) == 0x18 && Substitute(0x35) == 0x96 && Substitute(0x36) == 0x05 && Substitute(0x37) == 0x9a
  {
    hide Substitute;
    HalfRow(3, 0, 0x30, [0x04, 0xc7, 0x23, 0xc3, 0x18, 0x96, 0x05, 0x9a]);
  }

  lemma Half3b()
    ensures Substitute(0x38) == 0x07 && Substitute(0x39) == 0x12 && Substitute(0x3a) == 0x80 && Substitute(0x3b) == 0xe2
    ensures Substitute(0x3c) == 0xeb && Substitute(0x3d) == 0x27 && Substitute(0x3e) == 0xb2 && Substitute(0x3f) == 0x75
  {
    hide Substitute;
    HalfRow(3, 8, 0x38, [0x07, 0x12, 0x80, 0xe2, 0xeb, 0x27, 0xb2, 0x75]);
  }

  lemma Half4a()
    ensures Substitute(0x40) == 0x09 && Substitute(0x41) == 0x83 && Substitute(0x42) == 0x2c && Substitute(0x43) == 0x1a
    ensures Substitute(0x44) == 0x1b && Substitute(0x45) == 0x6e && Substitute(0x46) == 0x5a && Substitute(0x47) == 0xa0
  {
    hide Substitute;
    HalfRow(4, 0, 0x40, [0x09, 0x83, 0x2c, 0x1a, 0x1b, 0x6e, 0x5a, 0xa0]);
  }

  lemma Half4b()
    ensures Substitute(0x48) == 0x52 && Substitute(0x49) == 0x3b && Substitute(0x4a) == 0xd6 && Substitute(0x4b) == 0xb3
    ensures Substitute(0x4c) == 0x29 && Substitute(0x4d) == 0xe3 && Substitute(0x4e) == 0x2f && Substitute(0x4f) == 0x84
  {
    hide Substitute;
    HalfRow(4, 8, 0x48, [0x52, 0x3b, 0xd6, 0xb3, 0x29, 0xe3, 0x2f, 0x84]);
  }

  lemma Half5a()
    ensures Substitute(0x50) == 0x53 && Substitute(0x51) == 0xd1 && Substitute(0x52) == 0x00 && Substitute(0x53) == 0xed
    ensures Substitute(0x54) == 0x20 && Substitute(0x55) == 0xfc && Substitute(0x56) == 0xb1 && Substitute(0x57) == 0x5b
  {
    hide Substitute;
    HalfRow(5, 0, 0x50, [0x53, 0xd1, 0x00, 0xed, 0x20, 0xfc, 0xb1, 0x5b]);
  }

  lemma Half5b()
    ensures Substitute(0x58) == 0x6a && Substitute(0x59) == 0xcb && Substitute(0x5a) == 0xbe && Substitute(0x5b) == 0x39
    ensures Substitute(0x5c) == 0x4a && Substitute(0x5d) == 0x4c && Substitute(0x5e) == 0x58 && Substitute(0x5f) == 0xcf
  {
    hide Substitute;
    HalfRow(5, 8, 0x58, [0x6a, 0xcb, 0xbe, 0x39, 0x4a, 0x4c, 0x58, 0xcf]);
  }

  lemma Half6a()
    ensures Substitute(0x60) == 0xd0 && Substitute(0x61) == 0xef && Substitute(0x62) == 0xaa && Substitute(0x63) == 0xfb
    ensures Substitute(0x64) == 0x43 && Substitute(0x65) == 0x4d && Substitute(0x66) == 0x33 && Substitute(0x67) == 0x85
  {
    hide Substitute;
    HalfRow(6, 0, 0x60, [0xd0, 0xef, 0xaa, 0xfb, 0x43, 0x4d, 0x33, 0x85]);
  }

  lemma Half6b()
    ensures Substitute(0x68) == 0x45 && Substitute(0x69) == 0xf9 && Substitute(0x6a) == 0x02 && Substitute(0x6b) == 0x7f
    ensures Substitute(0x6c) == 0x50 && Substitute(0x6d) == 0x3c && Substitute(0x6e) == 0x9f && Substitute(0x6f) == 0xa8
  {
    hide Substitute;
    HalfRow(6, 8, 0x68, [0x45, 0xf9, 0x02, 0x7f, 0x50, 0x3c, 0x9f, 0xa8]);
  }

  lemma Half7a()
    ensures Substitute(0x70) == 0x51 && Substitute(0x71) == 0xa3 && Substitute(0x72) == 0x40 && Substitute(0x73) == 0x8f
    ensures Substitute(0x74) == 0x92 && Substitute(0x75) == 0x9d && Substitute(0x76) == 0x38 && Substitute(0x77) == 0xf5
  {
    hide Substitute;
    HalfRow(7, 0, 0x70, [0x51, 0xa3, 0x40, 0x8f, 0x92, 0x9d, 0x38, 0xf5]);
  }

  lemma Half7b()
    ensures Substitute(0x78) == 0xbc && Substitute(0x79) == 0xb6 && Substitute(0x7a) == 0xda && Substitute(0x7b) == 0x21
    ensures Substitute(0x7c) == 0x10 && Substitute(0x7d) == 0xff && Substitute(0x7e) == 0xf3 && Substitute(0x7f) == 0xd2
  {
    hide Substitute;
    HalfRow(7, 8, 0x78, [0xbc, 0xb6, 0xda, 0x21, 0x10, 0xff, 0xf3, 0xd2]);
  }

  lemma Half8a()
    ensures Substitute(0x80) == 0xcd && Substitute(0x81) == 0x0c && Substitute(0x82) == 0x13 && Substitute(0x83) == 0xec
    ensures Substitute(0x84) == 0x5f && Substitute(0x85) == 0x97 && Substitute(0x86) == 0x44 && Substitute(0x87) == 0x17
  {
    hide Substitute;
    HalfRow(8, 0, 0x80, [0xcd, 0x0c, 0x13, 0xec, 0x5f, 0x97, 0x44, 0x17]);
  }

  lemma Half8b()
    ensures Substitute(0x88) == 0xc4 && Substitute(0x89) == 0xa7 && Substitute(0x8a) == 0x7e && Substitute(0x8b) == 0x3d
    ensures Substitute(0x8c) == 0x64 && Substitute(0x8d) == 0x5d && Substitute(0x8e) == 0x19 && Substitute(0x8f) == 0x73
  {
    hide Substitute;
    HalfRow(8, 8, 0x88, [0xc4, 0xa7, 0x7e, 0x3d, 0x64, 0x5d, 0x19, 0x73]);
  }

  lemma Half9a()
    ensures Substitute(0x90) == 0x60 && Substitute(0x91) == 0x81 && Substitute(0x92) == 0x4f && Substitute(0x93) == 0xdc
    ensures Substitute(0x94) == 0x22 && Substitute(0x95) == 0x2a && Substitute(0x96) == 0x90 && Substitute(0x97) == 0x88
  {
    hide Substitute;
    HalfRow(9, 0, 0x90, [0x60, 0x81, 0x4f, 0xdc, 0x22, 0x2a, 0x90, 0x88]);
  }

  lemma Half9b()
    ensures Substitute(0x98) == 0x46 && Substitute(0x99) == 0xee && Substitute(0x9a) == 0xb8 && Substitute(0x9b) == 0x14
    ensures Substitute(0x9c) == 0xde && Substitute(0x9d) == 0x5e && Substitute(0x9e) == 0x0b && Substitute(0x9f) == 0xdb
  {
    hide Substitute;
    HalfRow(9, 8, 0x98, [0x46, 0xee, 0xb8, 0x14, 0xde, 0x5e, 0x0b, 0xdb]);
  }

  lemma Half10a()
    ensures Substitute(0xa0) == 0xe0 && Substitute(0xa1) == 0x32 && Substitute(0xa2) == 0x3a && Substitute(0xa3) == 0x0a
    ensures Substitute(0xa4) == 0x49 && Substitute(0xa5) == 0x06 && Substitute(0xa6) == 0x24 && Substitute(0xa7) == 0x5c
  {
    hide Substitute;
    HalfRow(10, 0, 0xa0, [0xe0, 0x32, 0x3a, 0x0a, 0x49, 0x06, 0x24, 0x5c]);
  }

  lemma Half10b()
    ensures Substitute(0xa8) == 0xc2 && Substitute(0xa9) == 0xd3 && Substitute(0xaa) == 0xac && Substitute(0xab) == 0x62
    ensures Substitute(0xac) == 0x91 && Substitute(0xad) == 0x95 && Substitute(0xae) == 0xe4 && Substitute(0xaf) == 0x79
  {
    hide Substitute;
    HalfRow(10, 8, 0xa8, [0xc2, 0xd3, 0xac, 0x62, 0x91, 0x95, 0xe4, 0x79]);
  }

  lemma Half11a()
    ensures Substitute(0xb0) == 0xe7 && Substitute(0xb1) == 0xc8 && Substitute(0xb2) == 0x37 && Substitute(0xb3) == 0x6d
    ensures Substitute(0xb4) == 0x8d && Substitute(0xb5) == 0xd5 && Substitute(0xb6) == 0x4e && Substitute(0xb7) == 0xa9
  {
    hide Substitute;
    HalfRow(11, 0, 0xb0, [0xe7, 0xc8, 0x37, 0x6d, 0x8d, 0xd5, 0x4e, 0xa9]);
  }

  lemma Half11b()
    ensures Substitute(0xb8) == 0x6c && Substitute(0xb9) == 0x56 && Substitute(0xba) == 0xf4 && Substitute(0xbb) == 0xea
    ensures Substitute(0xbc) == 0x65 && Substitute(0xbd) == 0x7a && Substitute(0xbe) == 0xae && Substitute(0xbf) == 0x08
  {
    hide Substitute;
    HalfRow(11, 8, 0xb8, [0x6c, 0x56, 0xf4, 0xea, 0x65, 0x7a, 0xae, 0x08]);
  }

  lemma Half12a()
    ensures Substitute(0xc0) == 0xba && Substitute(0xc1) == 0x78 && Substitute(0xc2) == 0x25 && Substitute(0xc3) == 0x2e
    ensures Substitute(0xc4) == 0x1c && Substitute(0xc5) == 0xa6 && Substitute(0xc6) == 0xb4 && Substitute(0xc7) == 0xc6
  {
    hide Substitute;
    HalfRow(12, 0, 0xc0, [0xba, 0x78, 0x25, 0x2e, 0x1c, 0xa6, 0xb4, 0xc6]);
  }

  lemma Half12b()
    ensures Substitute(0xc8) == 0xe8 && Substitute(0xc9) == 0xdd && Substitute(0xca) == 0x74 && Substitute(0xcb) == 0x1f
    ensures Substitute(0xcc) == 0x4b && Substitute(0xcd) == 0xbd && Substitute(0xce) == 0x8b && Substitute(0xcf) == 0x8a
  {
    hide Substitute;
    HalfRow(12, 8, 0xc8, [0xe8, 0xdd, 0x74, 0x1f, 0x4b, 0xbd, 0x8b, 0x8a]);
  }

  lemma Half13a()
    ensures Substitute(0xd0) == 0x70 && Substitute(0xd1) == 0x3e && Substitute(0xd2) == 0xb5 && Substitute(0xd3) == 0x66
    ensures Substitute(0xd4) == 0x48 && Substitute(0xd5) == 0x03 && Substitute(0xd6) == 0xf6 && Substitute(0xd7) == 0x0e
  {
    hide Substitute;
    HalfRow(13, 0, 0xd0, [0x70, 0x3e, 0xb5, 0x66, 0x48, 0x03, 0xf6, 0x0e]);
  }

  lemma Half13b()
    ensures Substitute(0xd8) == 0x61 && Substitute(0xd9) == 0x35 && Substitute(0xda) == 0x57 && Substitute(0xdb) == 0xb9
    ensures Substitute(0xdc) == 0x86 && Substitute(0xdd) == 0xc1 && Substitute(0xde) == 0x1d && Substitute(0xdf) == 0x9e
  {
    hide Substitute;
    HalfRow(13, 8, 0xd8, [0x61, 0x35, 0x57, 0xb9, 0x86, 0xc1, 0x1d, 0x9e]);
  }

  lemma Half14a()
    ensures Substitute(0xe0) == 0xe1 && Substitute(0xe1) == 0xf8 && Substitute(0xe2) == 0x98 && Substitute(0xe3) == 0x11
    ensures Substitute(0xe4) == 0x69 && Substitute(0xe5) == 0xd9 && Substitute(0xe6) == 0x8e && Substitute(0xe7) == 0x94
  {
    hide Substitute;
    HalfRow(14, 0, 0xe0, [0xe1, 0xf8, 0x98, 0x11, 0x69, 0xd9, 0x8e, 0x94]);
  }

  lemma Half14b()
    ensures Substitute(0xe8) == 0x9b && Substitute(0xe9) == 0x1e && Substitute(0xea) == 0x87 && Substitute(0xeb) == 0xe9
    ensures Substitute(0xec) == 0xce && Substitute(0xed) == 0x55 && Substitute(0xee) == 0x28 && Substitute(0xef) == 0xdf
  {
    hide Substitute;
    HalfRow(14, 8, 0xe8, [0x9b, 0x1e, 0x87, 0xe9, 0xce, 0x55, 0x28, 0xdf]);
  }

  lemma Half15a()
    ensures Substitute(0xf0) == 0x8c && Substitute(0xf1) == 0xa1 && Substitute(0xf2) == 0x89 && Substitute(0xf3) == 0x0d
    ensures Substitute(0xf4) == 0xbf && Substitute(0xf5) == 0xe6 && Substitute(0xf6) == 0x42 && Substitute(0xf7) == 0x68
  {
    hide Substitute;
    HalfRow(15, 0, 0xf0, [0x8c, 0xa1, 0x89, 0x0d, 0xbf, 0xe6, 0x42, 0x68]);
  }

  lemma Half15b()
    ensures Substitute(0xf8) == 0x41 && Substitute(0xf9) == 0x99 && Substitute(0xfa) == 0x2d && Substitute(0xfb) == 0x0f
    ensures Substitute(0xfc) == 0xb0 && Substitute(0xfd) == 0x54 && Substitute(0xfe) == 0xbb && Substitute(0xff) == 0x16
  {
    hide Substitute;
    HalfRow(15, 8, 0xf8, [0x41, 0x99, 0x2d, 0x0f, 0xb0, 0x54, 0xbb, 0x16]);
  }

  // ---------- the round keys ----------

  const KEY: Block := [0x2b, 0x7e, 0x15, 0x16, 0x28, 0xae, 0xd2, 0xa6,
                      0xab, 0xf7, 0x15, 0x88, 0x09, 0xcf, 0x4f, 0x3c]

  const KEY1: Block := [0xa0, 0xfa, 0xfe, 0x17, 0x88, 0x54, 0x2c, 0xb1,
                        0x23, 0xa3, 0x39, 0x39, 0x2a, 0x6c, 0x76, 0x05]
  const KEY2: Block := [0xf2, 0xc2, 0x95, 0xf2, 0x7a, 0x96, 0xb9, 0x43,
                        0x59, 0x35, 0x80, 0x7a, 0x73, 0x59, 0xf6, 0x7f]
  const KEY3: Block := [0x3d, 0x80, 0x47, 0x7d, 0x47, 0x16, 0xfe, 0x3e,
                        0x1e, 0x23, 0x7e, 0x44, 0x6d, 0x7a, 0x88, 0x3b]
  const KEY4: Block := [0xef, 0x44, 0xa5, 0x41, 0xa8, 0x52, 0x5b, 0x7f,
                        0xb6, 0x71, 0x25, 0x3b, 0xdb, 0x0b, 0xad, 0x00]
  const KEY5: Block := [0xd4, 0xd1, 0xc6, 0xf8, 0x7c, 0x83, 0x9d, 0x87,
                        0xca, 0xf2, 0xb8, 0xbc, 0x11, 0xf9, 0x15, 0xbc]
  const KEY6: Block := [0x6d, 0x88, 0xa3, 0x7a, 0x11, 0x0b, 0x3e, 0xfd,
                        0xdb, 0xf9, 0x86, 0x41, 0xca, 0x00, 0x93, 0xfd]
  const KEY7: Block := [0x4e, 0x54, 0xf7, 0x0e, 0x5f, 0x5f, 0xc9, 0xf3,
                        0x84, 0xa6, 0x4f, 0xb2, 0x4e, 0xa6, 0xdc, 0x4f]
  const KEY8: Block := [0xea, 0xd2, 0x73, 0x21, 0xb5, 0x8d, 0xba, 0xd2,
                        0x31, 0x2b, 0xf5, 0x60, 0x7f, 0x8d, 0x29, 0x2f]
  const KEY9: Block := [0xac, 0x77, 0x66, 0xf3, 0x19, 0xfa, 0xdc, 0x21,
                        0x28, 0xd1, 0x29, 0x41, 0x57, 0x5c, 0x00, 0x6e]
  const KEY10: Block := [0xd0, 0x14, 0xf9, 0xa8, 0xc9, 0xee, 0x25, 0x89,
                         0xe1, 0x3f, 0x0c, 0xc8, 0xb6, 0x63, 0x0c, 0xa6]

  /** Round key r of the schedule is the block k. */
  ghost predicate RoundKeyIs(r: nat, k: Block) {
    r <= 10 && forall i | 0 <= i < 16 :: RoundKeysOf(KEY)[16 * r + i] == k[i]
  }

  /** The block next follows the round key k as section 5.2 says. */
  predicate Follows(k: Block, next: Block, c: Byte) {
    && next[0] == Xor(k[0], Xor(Substitute(k[13]), c)) && next[1] == Xor(k[1], Substitute(k[14]))
    && next[2] == Xor(k[2], Substitute(k[15])) && next[3] == Xor(k[3], Substitute(k[12]))
    && next[4] == Xor(k[4], next[0]) && next[5] == Xor(k[5], next[1])
    && next[6] == Xor(k[6], next[2]) && next[7] == Xor(k[7], next[3])
    && next[8] == Xor(k[8], next[4]) && next[9] == Xor(k[9], next[5])
    && next[10] == Xor(k[10], next[6]) && next[11] == Xor(k[11], next[7])
    && next[12] == Xor(k[12], next[8]) && next[13] == Xor(k[13], next[9])
    && next[14] == Xor(k[14], next[10]) && next[15] == Xor(k[15], next[11])
  }

  lemma FollowsAt(k: Block, next: Block, c: Byte, i: nat)
    requires Follows(k, next, c) && 4 <= i < 16
    ensures next[i] == Xor(k[i], next[i - 4])
  {
    hide Xor, Substitute;
    assert i == 4 || i == 5 || i == 6 || i == 7 || i == 8 || i == 9 || i == 10 || i == 11
        || i == 12 || i == 13 || i == 14 || i == 15;
  }

  lemma {:induction false} KeyFollows(r: nat, k: Block, next: Block, i: nat)
    requires 1 <= r <= 10 && RoundKeyIs(r - 1, k) && Follows(k, next, RoundConstant(r)) && i < 16
    ensures RoundKeysOf(KEY)[16 * r + i] == next[i]
  {
    hide RoundKeysOf, Substitute, Xor, RoundConstant, Follows;
    assert RoundKeysOf(KEY)[16 * (r - 1) + i] == k[i];
    if i >= 4 {
      ScheduleOtherWords(KEY, r, i);
      FollowsAt(k, next, RoundConstant(r), i);
      KeyFollows(r, k, next, i - 4);
    } else {
      FirstOfKey(r, k, next, i);
    }
  }

  lemma FirstOfKey(r: nat, k: Block, next: Block, i: nat)
    requires 1 <= r <= 10 && RoundKeyIs(r - 1, k) && Follows(k, next, RoundConstant(r)) && i < 4
    ensures RoundKeysOf(KEY)[16 * r + i] == next[i]
  {
    hide RoundKeysOf, Substitute, Xor, RoundConstant;
    ScheduleFirstWord(KEY, r);
    var keys := RoundKeysOf(KEY);
    assert keys[16 * (r - 1) + i] == k[i] && keys[16 * (r - 1) + 12] == k[12] && keys[16 * (r - 1) + 13] == k[13];
    assert keys[16 * (r - 1) + 14] == k[14] && keys[16 * (r - 1) + 15] == k[15];
  }

  lemma NextRoundKey(r: nat, k: Block, next: Block)
    requires 1 <= r <= 10 && RoundKeyIs(r - 1, k) && Follows(k, next, RoundConstant(r))
    ensures RoundKeyIs(r, next)
  {
    hide RoundKeysOf, RoundConstant, Follows;
    var keys := RoundKeysOf(KEY);
    forall i | 0 <= i < 16 ensures keys[16 * r + i] == next[i] {
      KeyFollows(r, k, next, i);
    }
  }

  lemma RoundKey0()
    ensures RoundKeyIs(0, KEY)
  {
    hide RoundKeysOf;
    forall i | 0 <= i < 16 ensures RoundKeysOf(KEY)[16 * 0 + i] == KEY[i] {
      ScheduleStart(KEY, i);
    }
  }

  lemma ConstantIs(r: nat, c: Byte)
    requires 1 <= r <= 10 && RCON[r] == c
    ensures RoundConstant(r) == c
  {
    Constants(r);
  }

  lemma RoundKey1()
    ensures RoundKeyIs(1, KEY1)
  {
    RoundKey0();
    ConstantIs(1, 0x01);
    Half0b(); Half3b(); Half4b(); Half12b();
    hide RoundKeyIs, Substitute, RoundConstant;
    NextRoundKey(1, KEY, KEY1);
  }

  lemma RoundKey2()
    ensures RoundKeyIs(2, KEY2)
  {
    RoundKey1();
    ConstantIs(2, 0x02);
    Half0a(); Half2b(); Half6b(); Half7a();
    hide RoundKeyIs, Substitute, RoundConstant;
    NextRoundKey(2, KEY1, KEY2);
  }

  lemma RoundKey3()
    ensures RoundKeyIs(3, KEY3)
  {
    RoundKey2();
    ConstantIs(3, 0x04);
    Half5b(); Half7a(); Half7b(); Half15a();
    hide RoundKeyIs, Substitute, RoundConstant;
    NextRoundKey(3, KEY2, KEY3);
  }

  lemma RoundKey4()
    ensures RoundKeyIs(4, KEY4)
  {
    RoundKey3();
    ConstantIs(4, 0x08);
    Half3b(); Half6b(); Half7b(); Half8b();
    hide RoundKeyIs, Substitute, RoundConstant;
    NextRoundKey(4, KEY3, KEY4);
  }

  lemma RoundKey5()
    ensures RoundKeyIs(5, KEY5)
  {
    RoundKey4();
    ConstantIs(5, 0x10);
    Half0a(); Half0b(); Half10b(); Half13b();
    hide RoundKeyIs, Substitute, RoundConstant;
    NextRoundKey(5, KEY4, KEY5);
  }

  lemma RoundKey6()
    ensures RoundKeyIs(6, KEY6)
  {
    RoundKey5();
    ConstantIs(6, 0x20);
    Half1a(); Half11b(); Half15b();
    hide RoundKeyIs, Substitute, RoundConstant;
    NextRoundKey(6, KEY5, KEY6);
  }

  lemma RoundKey7()
    ensures RoundKeyIs(7, KEY7)
  {
    RoundKey6();
    ConstantIs(7, 0x40);
    Half0a(); Half9a(); Half12b(); Half15b();
    hide RoundKeyIs, Substitute, RoundConstant;
    NextRoundKey(7, KEY6, KEY7);
  }

  lemma RoundKey8()
    ensures RoundKeyIs(8, KEY8)
  {
    RoundKey7();
    ConstantIs(8, 0x80);
    Half4b(); Half10a(); Half13b();
    hide RoundKeyIs, Substitute, RoundConstant;
    NextRoundKey(8, KEY7, KEY8);
  }

  lemma RoundKey9()
    ensures RoundKeyIs(9, KEY9)
  {
    RoundKey8();
    ConstantIs(9, 0x1b);
    Half2b(); Half7b(); Half8b();
    hide RoundKeyIs, Substitute, RoundConstant;
    NextRoundKey(9, KEY8, KEY9);
  }

  lemma RoundKey10()
    ensures RoundKeyIs(10, KEY10)
  {
    RoundKey9();
    ConstantIs(10, 0x36);
    Half0a(); Half5a(); Half5b(); Half6b();
    hide RoundKeyIs, Substitute, RoundConstant;
    NextRoundKey(10, KEY9, KEY10);
  }

  /** Appendix A.1: the round keys of the key. */
  lemma RoundKeysOfKey()
    ensures var keys := RoundKeysOf(KEY);
      && keys[0..16] == KEY && keys[16..32] == KEY1 && keys[32..48] == KEY2 && keys[48..64] == KEY3
      && keys[64..80] == KEY4 && keys[80..96] == KEY5 && keys[96..112] == KEY6 && keys[112..128] == KEY7
      && keys[128..144] == KEY8 && keys[144..160] == KEY9 && keys[160..176] == KEY10
  {
    RoundKey0();
    RoundKey1();
    RoundKey2();
    RoundKey3();
    RoundKey4();
    RoundKey5();
    RoundKey6();
    RoundKey7();
    RoundKey8();
    RoundKey9();
    RoundKey10();
    hide RoundKeysOf, RoundKeyIs, KEY, KEY1, KEY2, KEY3, KEY4, KEY5, KEY6, KEY7, KEY8, KEY9, KEY10;
    RoundKeyPart(0, KEY);
    RoundKeyPart(1, KEY1);
    RoundKeyPart(2, KEY2);
    RoundKeyPart(3, KEY3);
    RoundKeyPart(4, KEY4);
    RoundKeyPart(5, KEY5);
    RoundKeyPart(6, KEY6);
    RoundKeyPart(7, KEY7);
    RoundKeyPart(8, KEY8);
    RoundKeyPart(9, KEY9);
    RoundKeyPart(10, KEY10);
  }

  lemma RoundKeyPart(r: nat, k: Block)
    requires RoundKeyIs(r, k)
    ensures 16 * r + 16 <= 176 && RoundKeysOf(KEY)[16 * r..16 * r + 16] == k
  {
    hide RoundKeysOf, KEY;
    var keys := RoundKeysOf(KEY);
    var part := keys[16 * r..16 * r + 16];
    forall i | 0 <= i < 16 ensures part[i] == k[i] {
      assert keys[16 * r + i] == k[i];
    }
  }

  // ---------- the block ----------

  const INPUT: Block := [0x32, 0x43, 0xf6, 0xa8, 0x88, 0x5a, 0x30, 0x8d,
                        0x31, 0x31, 0x98, 0xa2, 0xe0, 0x37, 0x07, 0x34]

  const OUTPUT: Block := [0x39, 0x25, 0x84, 0x1d, 0x02, 0xdc, 0x09, 0xfb,
                         0xdc, 0x11, 0x85, 0x97, 0x19, 0x6a, 0x0b, 0x32]

  /** The state at the start of round r is the block s. */
  ghost predicate StateIs(r: nat, s: Block) {
    r < 10 && Rounds(INPUT, RoundKeysOf(KEY), r) == s
  }

  lemma AddRound(r: nat, m: Block, k: Block, after: Block)
    requires RoundKeyIs(r, k) && after == AddRoundKeyOf(0, m, k)
    ensures AddRoundKeyOf(r, m, RoundKeysOf(KEY)) == after
  {
    RoundKeyPart(r, k);
    hide RoundKeysOf, KEY, AddRoundKeyOf;
    RoundKeyOnly(r, m, RoundKeysOf(KEY));
  }

  lemma OneRound(r: nat, before: Block, a: Block, k: Block, after: Block)
    requires 1 <= r <= 9 && StateIs(r - 1, before) && RoundKeyIs(r, k)
    requires SubBytesOf(before) == a && after == AddRoundKeyOf(0, MixColumnsOf(ShiftRowsOf(a)), k)
    ensures StateIs(r, after)
  {
    hide SubBytesOf, ShiftRowsOf, MixColumnsOf, AddRoundKeyOf, RoundKeyIs, RoundKeysOf, KEY, INPUT;
    AddRound(r, MixColumnsOf(ShiftRowsOf(a)), k, after);
  }

  const STATE0: Block := [0x19, 0x3d, 0xe3, 0xbe, 0xa0, 0xf4, 0xe2, 0x2b,
                          0x9a, 0xc6, 0x8d, 0x2a, 0xe9, 0xf8, 0x48, 0x08]
  const STATE1: Block := [0xa4, 0x9c, 0x7f, 0xf2, 0x68, 0x9f, 0x35, 0x2b,
                          0x6b, 0x5b, 0xea, 0x43, 0x02, 0x6a, 0x50, 0x49]
  const STATE2: Block := [0xaa, 0x8f, 0x5f, 0x03, 0x61, 0xdd, 0xe3, 0xef,
                          0x82, 0xd2, 0x4a, 0xd2, 0x68, 0x32, 0x46, 0x9a]
  const STATE3: Block := [0x48, 0x6c, 0x4e, 0xee, 0x67, 0x1d, 0x9d, 0x0d,
                          0x4d, 0xe3, 0xb1, 0x38, 0xd6, 0x5f, 0x58, 0xe7]
  const STATE4: Block := [0xe0, 0x92, 0x7f, 0xe8, 0xc8, 0x63, 0x63, 0xc0,
                          0xd9, 0xb1, 0x35, 0x50, 0x85, 0xb8, 0xbe, 0x01]
  const STATE5: Block := [0xf1, 0x00, 0x6f, 0x55, 0xc1, 0x92, 0x4c, 0xef,
                          0x7c, 0xc8, 0x8b, 0x32, 0x5d, 0xb5, 0xd5, 0x0c]
  const STATE6: Block := [0x26, 0x0e, 0x2e, 0x17, 0x3d, 0x41, 0xb7, 0x7d,
                          0xe8, 0x64, 0x72, 0xa9, 0xfd, 0xd2, 0x8b, 0x25]
  const STATE7: Block := [0x5a, 0x41, 0x42, 0xb1, 0x19, 0x49, 0xdc, 0x1f,
                          0xa3, 0xe0, 0x19, 0x65, 0x7a, 0x8c, 0x04, 0x0c]
  const STATE8: Block := [0xea, 0x83, 0x5c, 0xf0, 0x04, 0x45, 0x33, 0x2d,
                          0x65, 0x5d, 0x98, 0xad, 0x85, 0x96, 0xb0, 0xc5]
  const STATE9: Block := [0xeb, 0x40, 0xf2, 0x1e, 0x59, 0x2e, 0x38, 0x84,
                          0x8b, 0xa1, 0x13, 0xe7, 0x1b, 0xc3, 0x42, 0xd2]

  lemma Round0()
    ensures StateIs(0, STATE0)
  {
    RoundKey0();
    hide RoundKeyIs, RoundKeysOf;
    assert STATE0 == AddRoundKeyOf(0, INPUT, KEY);
    AddRound(0, INPUT, KEY, STATE0);
  }

  const SUB1: Block := [0xd4, 0x27, 0x11, 0xae, 0xe0, 0xbf, 0x98, 0xf1,
                        0xb8, 0xb4, 0x5d, 0xe5, 0x1e, 0x41, 0x52, 0x30]

  lemma Sub1()
    ensures SubBytesOf(STATE0) == SUB1
  {
    Half0b(); Half1b(); Half2b(); Half3b(); Half4b(); Half8b(); Half9b(); Half10a();
    Half11b(); Half12a(); Half14a(); Half14b(); Half15a(); Half15b();
    hide Substitute;
  }

  const SUB2: Block := [0x49, 0xde, 0xd2, 0x89, 0x45, 0xdb, 0x96, 0xf1,
                        0x7f, 0x39, 0x87, 0x1a, 0x77, 0x02, 0x53, 0x3b]

  lemma Sub2()
    ensures SubBytesOf(STATE1) == SUB2
  {
    Half0a(); Half2b(); Half3a(); Half4a(); Half4b(); Half5a(); Half5b(); Half6b();
    Half7b(); Half9b(); Half10a(); Half14b(); Half15a();
    hide Substitute;
  }

  const SUB3: Block := [0xac, 0x73, 0xcf, 0x7b, 0xef, 0xc1, 0x11, 0xdf,
                        0x13, 0xb5, 0xd6, 0xb5, 0x45, 0x23, 0x5a, 0xb8]

  lemma Sub3()
    ensures SubBytesOf(STATE2) == SUB3
  {
    Half0a(); Half3a(); Half4a(); Half4b(); Half5b(); Half6a(); Half6b(); Half8a();
    Half8b(); Half9b(); Half10b(); Half13a(); Half13b(); Half14a(); Half14b();
    hide Substitute;
  }

  const SUB4: Block := [0x52, 0x50, 0x2f, 0x28, 0x85, 0xa4, 0x5e, 0xd7,
                        0xe3, 0x11, 0xc8, 0x07, 0xf6, 0xcf, 0x6a, 0x94]

  lemma Sub4()
    ensures SubBytesOf(STATE3) == SUB4
  {
    Half0b(); Half1b(); Half3b(); Half4b(); Half5b(); Half6a(); Half6b(); Half9b();
    Half11a(); Half13a(); Half14a(); Half14b();
    hide Substitute;
  }

  const SUB5: Block := [0xe1, 0x4f, 0xd2, 0x9b, 0xe8, 0xfb, 0xfb, 0xba,
                        0x35, 0xc8, 0x96, 0x53, 0x97, 0x6c, 0xae, 0x7c]

  lemma Sub5()
    ensures SubBytesOf(STATE4) == SUB5
  {
    Half0a(); Half3a(); Half5a(); Half6a(); Half7b(); Half8a(); Half9a(); Half11a();
    Half11b(); Half12a(); Half12b(); Half13b(); Half14a(); Half14b();
    hide Substitute;
  }

  const SUB6: Block := [0xa1, 0x63, 0xa8, 0xfc, 0x78, 0x4f, 0x29, 0xdf,
                        0x10, 0xe8, 0x3d, 0x23, 0x4c, 0xd5, 0x03, 0xfe]

  lemma Sub6()
    ensures SubBytesOf(STATE5) == SUB6
  {
    Half0a(); Half0b(); Half3a(); Half4b(); Half5a(); Half5b(); Half6b(); Half7b();
    Half8b(); Half9a(); Half11a(); Half12a(); Half12b(); Half13a(); Half14b(); Half15a();
    hide Substitute;
  }

  const SUB7: Block := [0xf7, 0xab, 0x31, 0xf0, 0x27, 0x83, 0xa9, 0xff,
                        0x9b, 0x43, 0x40, 0xd3, 0x54, 0xb5, 0x3d, 0x3f]

  lemma Sub7()
    ensures SubBytesOf(STATE6) == SUB7
  {
    Half0b(); Half1a(); Half2a(); Half2b(); Half3b(); Half4a(); Half6a(); Half7a();
    Half7b(); Half8b(); Half10b(); Half11a(); Half13a(); Half14b(); Half15b();
    hide Substitute;
  }

  const SUB8: Block := [0xbe, 0x83, 0x2c, 0xc8, 0xd4, 0x3b, 0x86, 0xc0,
                        0x0a, 0xe1, 0xd4, 0x4d, 0xda, 0x64, 0xf2, 0xfe]

  lemma Sub8()
    ensures SubBytesOf(STATE7) == SUB8
  {
    Half0a(); Half0b(); Half1b(); Half4a(); Half4b(); Half5b(); Half6a(); Half7b();
    Half8b(); Half10a(); Half11a(); Half13b(); Half14a();
    hide Substitute;
  }

  const SUB9: Block := [0x87, 0xec, 0x4a, 0x8c, 0xf2, 0x6e, 0xc3, 0xd8,
                        0x4d, 0x4c, 0x46, 0x95, 0x97, 0x90, 0xe7, 0xa6]

  lemma Sub9()
    ensures SubBytesOf(STATE8) == SUB9
  {
    Half0a(); Half2b(); Half3a(); Half4a(); Half5b(); Half6a(); Half8a(); Half9a();
    Half9b(); Half10b(); Half11a(); Half12a(); Half14b(); Half15a();
    hide Substitute;
  }

  const SUB10: Block := [0xe9, 0x09, 0x89, 0x72, 0xcb, 0x31, 0x07, 0x5f,
                         0x3d, 0x32, 0x7d, 0x94, 0xaf, 0x2e, 0x2c, 0xb5]

  lemma Sub10()
    ensures SubBytesOf(STATE9) == SUB10
  {
    Half1a(); Half1b(); Half2b(); Half3b(); Half4a(); Half5b(); Half8a(); Half8b();
    Half10a(); Half12a(); Half13a(); Half14a(); Half14b(); Half15a();
    hide Substitute;
  }

  lemma Round1()
    ensures StateIs(1, STATE1)
  {
    Round0();
    RoundKey1();
    Sub1();
    hide StateIs, RoundKeyIs, SubBytesOf;
    OneRound(1, STATE0, SUB1, KEY1, STATE1);
  }

  lemma Round2()
    ensures StateIs(2, STATE2)
  {
    Round1();
    RoundKey2();
    Sub2();
    hide StateIs, RoundKeyIs, SubBytesOf;
    OneRound(2, STATE1, SUB2, KEY2, STATE2);
  }

  lemma Round3()
    ensures StateIs(3, STATE3)
  {
    Round2();
    RoundKey3();
    Sub3();
    hide StateIs, RoundKeyIs, SubBytesOf;
    OneRound(3, STATE2, SUB3, KEY3, STATE3);
  }

  lemma Round4()
    ensures StateIs(4, STATE4)
  {
    Round3();
    RoundKey4();
    Sub4();
    hide StateIs, RoundKeyIs, SubBytesOf;
    OneRound(4, STATE3, SUB4, KEY4, STATE4);
  }

  lemma Round5()
    ensures StateIs(5, STATE5)
  {
    Round4();
    RoundKey5();
    Sub5();
    hide StateIs, RoundKeyIs, SubBytesOf;
    OneRound(5, STATE4, SUB5, KEY5, STATE5);
  }

  lemma Round6()
    ensures StateIs(6, STATE6)
  {
    Round5();
    RoundKey6();
    Sub6();
    hide StateIs, RoundKeyIs, SubBytesOf;
    OneRound(6, STATE5, SUB6, KEY6, STATE6);
  }

  lemma Round7()
    ensures StateIs(7, STATE7)
  {
    Round6();
    RoundKey7();
    Sub7();
    hide StateIs, RoundKeyIs, SubBytesOf;
    OneRound(7, STATE6, SUB7, KEY7, STATE7);
  }

  lemma Round8()
    ensures StateIs(8, STATE8)
  {
    Round7();
    RoundKey8();
    Sub8();
    hide StateIs, RoundKeyIs, SubBytesOf;
    OneRound(8, STATE7, SUB8, KEY8, STATE8);
  }

  lemma Round9()
    ensures StateIs(9, STATE9)
  {
    Round8();
    RoundKey9();
    Sub9();
    hide StateIs, RoundKeyIs, SubBytesOf;
    OneRound(9, STATE8, SUB9, KEY9, STATE9);
  }

  /** Appendix B: the block of the example is encrypted to that of the standard. */
  lemma CipherExample()
    ensures CipherOf(INPUT, RoundKeysOf(KEY)) == OUTPUT
  {
    Round9();
    RoundKey10();
    Sub10();
    hide RoundKeyIs, SubBytesOf, RoundKeysOf;
    assert OUTPUT == AddRoundKeyOf(0, ShiftRowsOf(SUB10), KEY10);
    AddRound(10, ShiftRowsOf(SUB10), KEY10, OUTPUT);
  }

  /** And decrypted again. */
  lemma InvCipherExample()
    ensures InvCipherOf(OUTPUT, RoundKeysOf(KEY)) == INPUT
  {
    hide RoundKeysOf, CipherOf, InvCipherOf, KEY, INPUT, OUTPUT;
    CipherExample();
    InvCipherUndoesCipher(INPUT, RoundKeysOf(KEY));
  }
}
