/** The wire format of drpc_types.c, drpc_struct.c, drpc_queue.c and drpc_array.c.
    A packet is a tag, a length and a payload. A struct, queue or array is packed
    as a counted list of packets, one for each element, and the element itself is
    a packet inside. */
module Wire {
  import opened Bytes
  import opened Wrappers

  // ---------- tags ----------

  const VOID: Byte := 0
  const STR: Byte := 11
  const SIZEDBUF: Byte := 12
  const ARRAY: Byte := 13
  const STRUCT: Byte := 14
  const QUEUE: Byte := 15

  /** The types that are kept as pointers and packed when they are sent. */
  predicate PointerTag(tag: Byte) {
    tag == STR || tag == SIZEDBUF || tag == ARRAY || tag == STRUCT || tag == QUEUE
  }

  // ---------- lengths ----------

  /** The k low bytes of n, least significant first. */
  function Little(n: nat, k: nat): (s: seq<Byte>)
    ensures |s| == k
  {
    if k == 0 then [] else [ByteOf(n % 256)] + Little(n / 256, k - 1)
  }

  function FromLittle(s: seq<Byte>): nat {
    if |s| == 0 then 0 else ValueOf(s[0]) + 256 * FromLittle(s[1..])
  }

  lemma {:induction false} LittleRoundTrip(n: nat, k: nat)
    requires n < Power256(k)
    ensures FromLittle(Little(n, k)) == n
  {
    if k > 0 {
      LittleRoundTrip(n / 256, k - 1);
      ByteRoundTrip(n % 256);
      assert Little(n, k)[1..] == Little(n / 256, k - 1);
    }
  }

  lemma DivideTwice(n: nat, p: nat)
    requires p > 0
    ensures n / 256 / p == n / (256 * p)
  {
    var q, r := n / 256 / p, n / 256 % p;
    assert n / 256 == q * p + r;
    assert n == 256 * p * q + (256 * r + n % 256) by {
      assert 256 * (q * p + r) == 256 * p * q + 256 * r;
    }
    Quotient(n, 256 * p, q, 256 * r + n % 256);
  }

  lemma Quotient(n: nat, d: nat, q: nat, r: nat)
    requires d > 0 && r < d && n == d * q + r
    ensures n / d == q
  {
    Spread(d, n / d, q);
    Spread(d, q, n / d);
  }

  lemma Spread(d: nat, a: nat, b: nat)
    ensures a < b ==> d * a + d <= d * b
  {
    if a < b {
      assert d * b == d * a + d * (b - a);
      assert d * (b - a) == d + d * (b - a - 1);
    }
  }

  /** Byte i is the one of weight 256 to the power i. */
  lemma {:induction false} LittleBytes(n: nat, k: nat, i: nat)
    requires i < k
    ensures Little(n, k)[i] == ByteOf(n / Power256(i) % 256)
  {
    if i > 0 {
      LittleBytes(n / 256, k - 1, i - 1);
      DivideTwice(n, Power256(i - 1));
    }
  }

  function Le64(n: nat): (s: seq<Byte>)
    ensures |s| == 8
  {
    Little(n, 8)
  }

  function FromLe64(b: seq<Byte>): nat
    requires |b| >= 8
  {
    FromLittle(b[..8])
  }

  lemma Le64RoundTrip(n: nat, rest: seq<Byte>)
    requires n < TWO_64
    ensures FromLe64(Le64(n) + rest) == n
  {
    assert Power256(8) == TWO_64 by { assert Power256(4) == 0x1_0000_0000; }
    LittleRoundTrip(n, 8);
    assert (Le64(n) + rest)[..8] == Le64(n);
  }

  // ---------- packets ----------

  /** struct drpc_type: len is the length of the payload. */
  datatype Packet = Packet(tag: Byte, payload: seq<Byte>)

  /** A void packet carries nothing. */
  predicate Sound(p: Packet) {
    p.tag == VOID ==> p.payload == []
  }

  function EncodePacket(p: Packet): (b: seq<Byte>)
    ensures |b| == 9 + |p.payload|
  {
    [p.tag] + Le64(|p.payload|) + p.payload
  }

  /** The packet at the start of b and the bytes that it takes. A void packet
      takes nine bytes, and its length is not read. */
  function DecodePacket(b: seq<Byte>): (r: Option<(Packet, nat)>)
    ensures r.Some? ==> 9 + |r.value.0.payload| == r.value.1 <= |b|
  {
    if |b| < 9 then None
    else if b[0] == VOID then Some((Packet(VOID, []), 9))
    else
      var len := FromLe64(b[1..]);
      if 9 + len > |b| then None else Some((Packet(b[0], b[9..9 + len]), 9 + len))
  }

  lemma PacketRoundTrip(p: Packet, rest: seq<Byte>)
    requires Sound(p) && |p.payload| < TWO_64
    ensures DecodePacket(EncodePacket(p) + rest) == Some((p, |EncodePacket(p)|))
  {
    var b := EncodePacket(p) + rest;
    hide Le64, FromLe64;
    if p.tag != VOID {
      assert b[1..] == Le64(|p.payload|) + (p.payload + rest);
      Le64RoundTrip(|p.payload|, p.payload + rest);
      assert b[9..9 + |p.payload|] == p.payload;
    }
  }

  /** Nine bytes and the payload: the tag, then the length with its low byte first. */
  lemma PacketBytes(p: Packet, i: nat)
    requires i < 8
    ensures var b := EncodePacket(p);
      b[0] == p.tag && b[1 + i] == ByteOf(|p.payload| / Power256(i) % 256) && b[9..] == p.payload
  {
    hide Power256;
    LittleBytes(|p.payload|, 8, i);
  }

  /** A void packet takes nine bytes whatever they are; another one as many as its length
      says, if they are there. */
  lemma PacketsRead(b: seq<Byte>)
    ensures |b| < 9 ==> DecodePacket(b) == None
    ensures |b| >= 9 && b[0] == 0 ==> DecodePacket(b) == Some((Packet(0, []), 9))
    ensures |b| >= 9 && b[0] != 0 ==>
      var n := FromLittle(b[1..9]);
      DecodePacket(b) == if 9 + n <= |b| then Some((Packet(b[0], b[9..9 + n]), 9 + n)) else None
  {
    hide FromLittle;
    if |b| >= 9 {
      assert b[1..][..8] == b[1..9];
    }
  }

  // ---------- lists of packets ----------

  function Concat(ps: seq<Packet>): seq<Byte> {
    if |ps| == 0 then [] else EncodePacket(ps[0]) + Concat(ps[1..])
  }

  function EncodePackets(ps: seq<Packet>): seq<Byte> {
    Le64(|ps|) + Concat(ps)
  }

  /** The number of packets with its low byte first, then the packets one after another. */
  lemma ListBytes(ps: seq<Packet>, i: nat)
    requires i < 8
    ensures EncodePackets(ps)[i] == ByteOf(|ps| / Power256(i) % 256)
    ensures |ps| == 0 ==> EncodePackets(ps)[8..] == []
    ensures |ps| > 0 ==> EncodePackets(ps)[8..] == EncodePacket(ps[0]) + EncodePackets(ps[1..])[8..]
  {
    hide Power256, EncodePacket;
    LittleBytes(|ps|, 8, i);
  }

  function Take(b: seq<Byte>, n: nat): (r: Option<seq<Packet>>)
    ensures r.Some? ==> |r.value| == n && forall i | 0 <= i < n :: |r.value[i].payload| <= |b|
    decreases n
  {
    if n == 0 then Some([])
    else
      var first := DecodePacket(b);
      if first.None? then None
      else
        var rest := Take(b[first.value.1..], n - 1);
        if rest.None? then None else Some([first.value.0] + rest.value)
  }

  function DecodePackets(b: seq<Byte>): (r: Option<seq<Packet>>)
    ensures r.Some? ==> forall i | 0 <= i < |r.value| :: |r.value[i].payload| < |b|
  {
    if |b| < 8 then None else Take(b[8..], FromLe64(b))
  }

  lemma {:induction false} ConcatBounds(ps: seq<Packet>)
    ensures |ps| <= |Concat(ps)|
    ensures forall i | 0 <= i < |ps| :: |ps[i].payload| <= |Concat(ps)|
  {
    if |ps| > 0 {
      ConcatBounds(ps[1..]);
      forall i | 0 <= i < |ps| ensures |ps[i].payload| <= |Concat(ps)| {
        if i > 0 {
          assert ps[i] == ps[1..][i - 1];
        }
      }
    }
  }

  lemma {:induction false} TakeUndoesConcat(ps: seq<Packet>, rest: seq<Byte>)
    requires forall i | 0 <= i < |ps| :: Sound(ps[i]) && |ps[i].payload| < TWO_64
    ensures Take(Concat(ps) + rest, |ps|) == Some(ps)
  {
    hide DecodePacket, EncodePacket, Sound;
    if |ps| > 0 {
      var b := Concat(ps) + rest;
      var after := Concat(ps[1..]) + rest;
      assert b == EncodePacket(ps[0]) + after;
      PacketRoundTrip(ps[0], after);
      assert b[|EncodePacket(ps[0])|..] == after;
      TakeUndoesConcat(ps[1..], rest);
      assert [ps[0]] + ps[1..] == ps;
    }
  }

  lemma PacketsRoundTrip(ps: seq<Packet>, rest: seq<Byte>)
    requires forall i | 0 <= i < |ps| :: Sound(ps[i])
    requires |EncodePackets(ps)| < TWO_64
    ensures DecodePackets(EncodePackets(ps) + rest) == Some(ps)
  {
    hide Take, Sound, Le64, FromLe64;
    ConcatBounds(ps);
    Le64RoundTrip(|ps|, Concat(ps) + rest);
    assert EncodePackets(ps) + rest == Le64(|ps|) + (Concat(ps) + rest);
    assert (EncodePackets(ps) + rest)[8..] == Concat(ps) + rest;
    TakeUndoesConcat(ps, rest);
  }

  // ---------- strings ----------

  type Chars = seq<Byte>

  predicate NoNul(s: Chars) {
    NUL !in s
  }

  /** The bytes before the first NUL. */
  function CString(b: seq<Byte>): (r: Option<Chars>)
    ensures r.Some? ==> |r.value| < |b| && NoNul(r.value)
  {
    if |b| == 0 then None
    else if b[0] == NUL then Some([])
    else
      var rest := CString(b[1..]);
      if rest.None? then None else Some([b[0]] + rest.value)
  }

  /** The characters before the first NUL. */
  lemma {:induction false} TextFirst(b: seq<Byte>)
    requires CString(b).Some?
    ensures var s := CString(b).value; b[..|s|] == s && b[..|s| + 1] == s + [NUL]
  {
    if b[0] != NUL {
      TextFirst(b[1..]);
    }
  }

  lemma {:induction false} CStringRoundTrip(s: Chars, rest: seq<Byte>)
    requires NoNul(s)
    ensures CString(s + [NUL] + rest) == Some(s)
  {
    var b := s + [NUL] + rest;
    if |s| > 0 {
      assert b[1..] == s[1..] + [NUL] + rest;
      CStringRoundTrip(s[1..], rest);
      assert b[0] == s[0] && [s[0]] + s[1..] == s;
    }
  }

  // ---------- decimal numbers ----------

  function Digit(n: nat): (d: Byte)
    requires n < 10
    ensures 48 <= ValueOf(d) < 58 && ValueOf(d) == 48 + n
  {
    ByteRoundTrip(48 + n);
    ByteOf(48 + n)
  }

  /** sprintf of %zu. */
  function Decimal(n: nat): (s: Chars)
    ensures |s| > 0
  {
    if n < 10 then [Digit(n)] else Decimal(n / 10) + [Digit(n % 10)]
  }

  /** The last character is the last digit, and the ones before it are those of the rest. */
  lemma DecimalDigits(n: nat)
    ensures var s := Decimal(n);
      && ValueOf(s[|s| - 1]) == 48 + n % 10
      && (n < 10 ==> |s| == 1)
      && (n >= 10 ==> s[..|s| - 1] == Decimal(n / 10))
  {
  }

  predicate IsDigit(b: Byte) {
    48 <= ValueOf(b) < 58
  }

  predicate IsSpace(b: Byte) {
    ValueOf(b) == 32 || 9 <= ValueOf(b) < 14
  }

  /** The number that the leading digits of s continue. */
  function Digits(s: Chars, n: nat): nat {
    if |s| == 0 || !IsDigit(s[0]) then n else Digits(s[1..], 10 * n + (ValueOf(s[0]) - 48))
  }

  const TWO_63: nat := 0x8000_0000_0000_0000

  /** atol, converted to size_t: blanks and a sign before the digits, clamped to
      the range of long. */
  function Atol(s: Chars): nat {
    if |s| == 0 then 0
    else if IsSpace(s[0]) then Atol(s[1..])
    else if ValueOf(s[0]) == 45 then
      var n := Digits(s[1..], 0);
      if n == 0 then 0 else TWO_64 - (if n > TWO_63 then TWO_63 else n)
    else
      var n := Digits(if ValueOf(s[0]) == 43 then s[1..] else s, 0);
      if n >= TWO_63 then TWO_63 - 1 else n
  }

  /** Each digit adds to ten times the digits before it; the first character that is no
      digit ends the number. */
  lemma DigitsCases(s: Chars, c: Byte, n: nat)
    ensures Digits([], n) == n
    ensures Digits([c] + s, n) == if 48 <= c as nat <= 57 then Digits(s, 10 * n + c as nat - 48) else n
  {
    assert ([c] + s)[1..] == s;
  }

  /** Blanks are skipped, then one sign; a negative number counts down from 2^64, and
      what a long cannot hold is clamped to its range. */
  lemma AtolCases(s: Chars, c: Byte)
    ensures Atol([]) == 0
    ensures c == 32 || 9 <= c as nat <= 13 ==> Atol([c] + s) == Atol(s)
    ensures c == 43 ==>
      var n := Digits(s, 0);
      Atol([c] + s) == if n <= 0x7fff_ffff_ffff_ffff then n else 0x7fff_ffff_ffff_ffff
    ensures c == 45 ==>
      var n := Digits(s, 0);
      && (n == 0 ==> Atol([c] + s) == 0)
      && (0 < n <= 0x8000_0000_0000_0000 ==> Atol([c] + s) == 0x1_0000_0000_0000_0000 - n)
      && (0x8000_0000_0000_0000 < n ==> Atol([c] + s) == 0x8000_0000_0000_0000)
    ensures 48 <= c as nat <= 57 ==>
      var n := Digits([c] + s, 0);
      Atol([c] + s) == if n <= 0x7fff_ffff_ffff_ffff then n else 0x7fff_ffff_ffff_ffff
  {
    hide Digits;
    assert ([c] + s)[1..] == s;
  }

  lemma {:induction false} DigitsAppend(s: Chars, d: Byte, n: nat)
    requires IsDigit(d) && forall i | 0 <= i < |s| :: IsDigit(s[i])
    ensures Digits(s + [d], n) == 10 * Digits(s, n) + (ValueOf(d) - 48)
  {
    if |s| > 0 {
      assert (s + [d])[1..] == s[1..] + [d];
      DigitsAppend(s[1..], d, 10 * n + (ValueOf(s[0]) - 48));
    } else {
      assert (s + [d])[1..] == [];
    }
  }

  lemma {:induction false} DigitsOfDecimal(n: nat)
    ensures Digits(Decimal(n), 0) == n
    ensures forall i | 0 <= i < |Decimal(n)| :: IsDigit(Decimal(n)[i])
  {
    if n >= 10 {
      DigitsOfDecimal(n / 10);
      DigitsAppend(Decimal(n / 10), Digit(n % 10), 0);
    } else {
      assert Decimal(n)[1..] == [];
    }
  }

  /** An index survives the trip through its key if and only if it fits a long. */
  lemma DecimalRoundTrip(n: nat)
    ensures Atol(Decimal(n)) == n <==> n < TWO_63
    ensures NoNul(Decimal(n))
  {
    hide Digits, Decimal;
    DigitsOfDecimal(n);
    assert IsDigit(Decimal(n)[0]);
    assert ValueOf(NUL) == 0;
  }
}
