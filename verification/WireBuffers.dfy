/** The cursor loops of drpc_types.c, which write packets into a buffer and read
    them back. */
module WireBuffers {
  import opened Bytes
  import opened Wrappers
  import opened Wire

  /** The buffer is what it was before, but for the bytes s at place at. */
  ghost predicate Filled(buf: array<Byte>, at: nat, s: seq<Byte>, before: seq<Byte>)
    reads buf
  {
    |before| == buf.Length && at + |s| <= |before| && buf[..] == before[..at] + s + before[at + |s|..]
  }

  /** memcpy to the cursor, behind the bytes that are already written. */
  method Put(buf: array<Byte>, at: nat, s: seq<Byte>, ghost start: nat, ghost done: seq<Byte>, ghost before: seq<Byte>)
    requires Filled(buf, start, done, before) && at == start + |done| && at + |s| <= buf.Length
    modifies buf
    ensures Filled(buf, start, done + s, before)
  {
    for i := 0 to |s|
      invariant Filled(buf, start, done + s[..i], before)
    {
      buf[at + i] := s[i];
      assert s[..i + 1] == s[..i] + [s[i]];
    }
    assert s[..|s|] == s;
  }

  function DrpcTypeBuflen(p: Packet): (n: nat)
    ensures n == |EncodePacket(p)|
  {
    1 + 8 + |p.payload|
  }

  /** drpc_buf: tag, length and payload, one after another. */
  method DrpcBuf(p: Packet, buf: array<Byte>, at: nat, ghost start: nat, ghost done: seq<Byte>, ghost before: seq<Byte>)
    returns (n: nat)
    requires Filled(buf, start, done, before) && at == start + |done|
    requires Sound(p) && at + |EncodePacket(p)| <= buf.Length
    modifies buf
    ensures n == |EncodePacket(p)| && Filled(buf, start, done + EncodePacket(p), before)
  {
    hide Le64, Filled;
    var len64 := Le64(|p.payload|);
    Put(buf, at, [p.tag], start, done, before);
    Put(buf, at + 1, len64, start, done + [p.tag], before);
    if p.tag != VOID {
      Put(buf, at + 9, p.payload, start, done + [p.tag] + len64, before);
    }
    n := DrpcTypeBuflen(p);
    assert p.tag == VOID ==> done + [p.tag] + len64 == done + [p.tag] + len64 + p.payload;
    assert done + [p.tag] + len64 + p.payload == done + EncodePacket(p);
  }

  /** The buffer of one element in its container: the bytes of its key, then its
      packet. */
  method WrapPacket(key: seq<Byte>, tag: Byte, p: Packet) returns (w: Packet)
    requires Sound(p)
    ensures w == Packet(tag, key + EncodePacket(p))
  {
    hide EncodePacket, Filled;
    var keyed := new Byte[|key| + DrpcTypeBuflen(p)];
    ghost var before := keyed[..];
    Untouched(keyed);
    Put(keyed, 0, key, 0, [], before);
    assert [] + key == key;
    var _ := DrpcBuf(p, keyed, |key|, 0, key, before);
    Ends(keyed, key + EncodePacket(p), before);
    assert keyed[..keyed.Length] == keyed[..];
    w := Packet(tag, keyed[..]);
  }

  lemma {:induction false} ConcatAppend(ps: seq<Packet>, p: Packet)
    ensures Concat(ps + [p]) == Concat(ps) + EncodePacket(p)
  {
    if |ps| > 0 {
      assert (ps + [p])[1..] == ps[1..] + [p];
      ConcatAppend(ps[1..], p);
    } else {
      assert (ps + [p])[1..] == [];
    }
  }

  lemma {:induction false} ConcatPrefix(ps: seq<Packet>, i: nat)
    requires i < |ps|
    ensures Concat(ps[..i + 1]) == Concat(ps[..i]) + EncodePacket(ps[i])
    ensures |Concat(ps[..i + 1])| <= |Concat(ps)|
  {
    assert ps[..i + 1] == ps[..i] + [ps[i]];
    ConcatAppend(ps[..i], ps[i]);
    ConcatSplits(ps[..i + 1], ps[i + 1..]);
    assert ps == ps[..i + 1] + ps[i + 1..];
  }

  lemma {:induction false} ConcatSplits(a: seq<Packet>, b: seq<Packet>)
    ensures Concat(a + b) == Concat(a) + Concat(b)
  {
    if |a| == 0 {
      assert a + b == b;
    } else {
      assert (a + b)[1..] == a[1..] + b;
      ConcatSplits(a[1..], b);
    }
  }

  method DrpcTypesBuflen(types: seq<Packet>) returns (n: nat)
    ensures n == |EncodePackets(types)|
  {
    hide EncodePacket;
    n := 8;
    for i := 0 to |types|
      invariant n == 8 + |Concat(types[..i])|
    {
      ConcatPrefix(types, i);
      n := n + DrpcTypeBuflen(types[i]);
    }
    assert types[..|types|] == types;
  }

  /** The count, then every packet: the buffer receives exactly the encoding. */
  method DrpcTypesBuf(types: seq<Packet>, buf: array<Byte>)
    requires |EncodePackets(types)| <= buf.Length
    requires forall i | 0 <= i < |types| :: Sound(types[i])
    modifies buf
    ensures var b := EncodePackets(types); buf[..|b|] == b && buf[|b|..] == old(buf[|b|..])
  {
    hide EncodePacket, Le64, Filled, Sound;
    ghost var before := buf[..];
    var len64 := Le64(|types|);
    Untouched(buf);
    Put(buf, 0, len64, 0, [], before);
    var cursor := 8;
    assert [] + len64 == len64 + Concat(types[..0]);
    for i := 0 to |types|
      invariant cursor == 8 + |Concat(types[..i])|
      invariant Filled(buf, 0, len64 + Concat(types[..i]), before)
    {
      ConcatPrefix(types, i);
      var n := DrpcBuf(types[i], buf, cursor, 0, len64 + Concat(types[..i]), before);
      assert len64 + Concat(types[..i]) + EncodePacket(types[i]) == len64 + Concat(types[..i + 1]);
      cursor := cursor + n;
    }
    assert types[..|types|] == types;
    Ends(buf, EncodePackets(types), before);
  }

  lemma Untouched(buf: array<Byte>)
    ensures Filled(buf, 0, [], buf[..])
  {
  }

  lemma Ends(buf: array<Byte>, s: seq<Byte>, before: seq<Byte>)
    requires Filled(buf, 0, s, before)
    ensures |s| <= |before| == buf.Length && buf[..|s|] == s && buf[|s|..] == before[|s|..]
  {
  }

  /** memcpy of len bytes out of the buffer. */
  method Get(buf: array<Byte>, at: nat, len: nat) returns (s: seq<Byte>)
    requires at + len <= buf.Length
    ensures s == buf[at..at + len]
  {
    s := [];
    for i := 0 to len
      invariant s == buf[at..at + i]
    {
      s := s + [buf[at + i]];
    }
  }

  /** The bytes in a buffer of their own. */
  method ArrayOf(s: seq<Byte>) returns (a: array<Byte>)
    ensures fresh(a) && a[..] == s
  {
    a := new Byte[|s|](i requires 0 <= i < |s| => s[i]);
  }

  /** buf_drpc. */
  method BufDrpc(buf: array<Byte>, at: nat) returns (p: Packet, n: nat)
    requires at <= buf.Length && DecodePacket(buf[at..]).Some?
    ensures DecodePacket(buf[at..]) == Some((p, n))
  {
    hide FromLe64;
    ghost var b := buf[at..];
    var tag := buf[at];
    var payload := [];
    if tag != VOID {
      var header := Get(buf, at + 1, 8);
      SameHeader(b[1..], header);
      var len := FromLe64(header);
      payload := Get(buf, at + 9, len);
      SliceBehind(buf[..], at, 9, 9 + len);
    }
    p := Packet(tag, payload);
    n := DrpcTypeBuflen(p);
  }

  lemma SliceBehind<T>(s: seq<T>, at: nat, i: nat, j: nat)
    requires at <= |s| && i <= j <= |s| - at
    ensures s[at..][i..j] == s[at + i..at + j]
  {
  }

  lemma SameHeader(b: seq<Byte>, header: seq<Byte>)
    requires |b| >= 8 == |header| && b[..8] == header
    ensures FromLe64(b) == FromLe64(header)
  {
    assert header[..8] == header;
  }

  /** One more packet read. */
  lemma TakeStep(b: seq<Byte>, n: nat, read: seq<Packet>)
    requires n > 0 && Take(b, n).Some?
    ensures var first := DecodePacket(b);
      first.Some? &&
      var rest := Take(b[first.value.1..], n - 1);
      rest.Some? && read + Take(b, n).value == read + [first.value.0] + rest.value
  {
    hide DecodePacket;
  }

  /** The count that starts a list of packets. */
  method ReadCount(buf: array<Byte>, at: nat) returns (len: nat)
    requires at <= buf.Length && DecodePackets(buf[at..]).Some?
    ensures at + 8 <= buf.Length && DecodePackets(buf[at..]) == Take(buf[at + 8..], len)
  {
    hide FromLe64, Take;
    var header := Get(buf, at, 8);
    SameHeader(buf[at..], header);
    len := FromLe64(header);
    assert buf[at..][8..] == buf[at + 8..];
  }

  /** The packets read so far, and those still in the bytes from here. */
  ghost predicate Reading(b: seq<Byte>, read: seq<Packet>, cursor: nat, left: nat, whole: seq<Packet>) {
    cursor <= |b| && Take(b[cursor..], left).Some? && whole == read + Take(b[cursor..], left).value
  }

  lemma ReadMore(b: seq<Byte>, read: seq<Packet>, cursor: nat, left: nat, whole: seq<Packet>)
    requires Reading(b, read, cursor, left, whole) && left > 0
    ensures var first := DecodePacket(b[cursor..]);
      first.Some? && Reading(b, read + [first.value.0], cursor + first.value.1, left - 1, whole)
  {
    hide DecodePacket;
    TakeStep(b[cursor..], left, read);
    var n := DecodePacket(b[cursor..]).value.1;
    assert b[cursor..][n..] == b[cursor + n..];
  }

  /** buf_drpc_types: as many packets as the count says. */
  method BufDrpcTypes(buf: array<Byte>, at: nat) returns (types: array<Packet>)
    requires at <= buf.Length && DecodePackets(buf[at..]).Some?
    ensures fresh(types) && DecodePackets(buf[at..]) == Some(types[..])
  {
    hide DecodePacket, Take, DecodePackets, Reading;
    var len := ReadCount(buf, at);
    types := new Packet[len];
    ghost var whole := DecodePackets(buf[at..]).value;
    var cursor: nat := at + 8;
    ReadStart(buf[..], cursor, len, whole);
    assert types[..0] == [];
    for i := 0 to len
      invariant cursor <= buf.Length && Reading(buf[..], types[..i], cursor, len - i, whole)
    {
      ghost var read := types[..i];
      ReadMore(buf[..], read, cursor, len - i, whole);
      assert buf[..][cursor..] == buf[cursor..];
      var p, n := BufDrpc(buf, cursor);
      types[i] := p;
      assert types[..i + 1] == read + [p];
      cursor := cursor + n;
    }
    ReadAll(buf[..], types[..len], cursor, whole);
    assert types[..len] == types[..];
  }

  lemma ReadStart(b: seq<Byte>, cursor: nat, len: nat, whole: seq<Packet>)
    requires cursor <= |b| && Take(b[cursor..], len) == Some(whole)
    ensures Reading(b, [], cursor, len, whole)
  {
    hide Take;
  }

  lemma ReadAll(b: seq<Byte>, read: seq<Packet>, cursor: nat, whole: seq<Packet>)
    requires Reading(b, read, cursor, 0, whole)
    ensures read == whole
  {
  }
}
