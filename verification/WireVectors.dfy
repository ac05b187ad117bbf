/** One struct worked out byte by byte: a scalar, a queue with a null entry, a text, a
    sized buffer and an array, as they are on the wire, and what a reader gets. */
module WireVectors {
  import opened Bytes
  import opened Wrappers
  import opened Wire
  import opened Codec

  /** The struct with a = 5 of eight bits, b = the queue of a null entry and "hi", and
      c = the array with a buffer of the bytes 1 and 2 at index 10. */
  const EXAMPLE: Element := Struct([
    Field([97], Packed(2, Packet(2, [5]))),
    Field([98], Queue([Hole, Str([104, 105])])),
    Field([99], Array([Cell(10, SizedBuf([1, 2]))]))])

  const A_BYTES: seq<Byte> :=
    [2, 12, 0, 0, 0, 0, 0, 0, 0, 97, 0, 2, 1, 0, 0, 0, 0, 0, 0, 0, 5]

  const TEXT_BYTES: seq<Byte> :=
    [11, 12, 0, 0, 0, 0, 0, 0, 0, 11, 3, 0, 0, 0, 0, 0, 0, 0, 104, 105, 0]

  const QUEUE_BYTES: seq<Byte> :=
    [2, 0, 0, 0, 0, 0, 0, 0] + ([0, 0, 0, 0, 0, 0, 0, 0, 0] + TEXT_BYTES)

  const B_BYTES: seq<Byte> :=
    [15, 49, 0, 0, 0, 0, 0, 0, 0, 98, 0, 15, 38, 0, 0, 0, 0, 0, 0, 0] + QUEUE_BYTES

  const CELL_BYTES: seq<Byte> :=
    [12, 14, 0, 0, 0, 0, 0, 0, 0, 49, 48, 0, 12, 2, 0, 0, 0, 0, 0, 0, 0, 1, 2]

  const ARRAY_BYTES: seq<Byte> :=
    [1, 0, 0, 0, 0, 0, 0, 0] + CELL_BYTES

  const C_BYTES: seq<Byte> :=
    [13, 42, 0, 0, 0, 0, 0, 0, 0, 99, 0, 13, 31, 0, 0, 0, 0, 0, 0, 0] + ARRAY_BYTES

  lemma SmallLength(n: nat)
    requires n < 256
    ensures Le64(n) == [ByteOf(n), 0, 0, 0, 0, 0, 0, 0]
  {
    hide ByteOf;
    LittleOfZero(7);
    assert n / 256 == 0 && n % 256 == n;
    assert Little(n, 8) == [ByteOf(n)] + Little(0, 7);
    hide Little;
    assert Zeros(7) == [0, 0, 0, 0, 0, 0, 0];
  }

  lemma {:induction false} LittleOfZero(k: nat)
    ensures Little(0, k) == Zeros(k)
  {
    if k > 0 {
      LittleOfZero(k - 1);
      assert ByteOf(0) == 0;
      assert Little(0, k) == [0] + Little(0, k - 1);
    }
  }

  lemma SmallPacket(tag: Byte, payload: seq<Byte>, n: Byte)
    requires |payload| == ValueOf(n)
    ensures EncodePacket(Packet(tag, payload)) == [tag, n, 0, 0, 0, 0, 0, 0, 0] + payload
  {
    hide ByteOf, ValueOf;
    SmallLength(|payload|);
    ValueRoundTrip(n);
    hide Le64;
  }

  lemma SmallList(ps: seq<Packet>, n: Byte)
    requires |ps| == ValueOf(n)
    ensures EncodePackets(ps) == [n, 0, 0, 0, 0, 0, 0, 0] + Concat(ps)
  {
    SmallLength(|ps|);
    ValueRoundTrip(n);
  }

  lemma OnePacket(p: Packet)
    ensures Concat([p]) == EncodePacket(p)
  {
    hide EncodePacket;
    assert [p][1..] == [];
    assert Concat([]) == [];
  }

  lemma TwoPackets(p: Packet, q: Packet)
    ensures Concat([p, q]) == EncodePacket(p) + EncodePacket(q)
  {
    hide EncodePacket;
    OnePacket(q);
    assert [p, q][1..] == [q];
  }

  lemma ThreePackets(p: Packet, q: Packet, r: Packet)
    ensures Concat([p, q, r]) == EncodePacket(p) + EncodePacket(q) + EncodePacket(r)
  {
    hide EncodePacket;
    TwoPackets(q, r);
    assert [p, q, r][1..] == [q, r];
  }

  lemma A()
    ensures EncodePacket(Wrapped([97, 0], Packed(2, Packet(2, [5])))) == A_BYTES
  {
    hide EncodePacket;
    SmallPacket(2, [5], 1);
    SmallPacket(2, [97, 0] + EncodePacket(Packet(2, [5])), 12);
  }

  lemma Hi()
    ensures EncodePacket(Wrapped([], Str([104, 105]))) == TEXT_BYTES
  {
    hide EncodePacket;
    assert [104, 105] + [NUL] == [104, 105, 0];
    SmallPacket(11, [104, 105, 0], 3);
    SmallPacket(11, [] + EncodePacket(Packet(11, [104, 105, 0])), 12);
  }

  lemma QueueBytes()
    ensures Inner(Queue([Hole, Str([104, 105])])) == Packet(15, QUEUE_BYTES)
  {
    hide EncodePacket, EncodePackets, TEXT_BYTES;
    var hole, hi := Wrapped([], Hole), Wrapped([], Str([104, 105]));
    TwoItems();
    Hi();
    SmallPacket(0, [], 0);
    assert EncodePacket(hole) == [0, 0, 0, 0, 0, 0, 0, 0, 0];
    hide Wrapped, Inner, ItemPackets;
    TwoPackets(hole, hi);
    SmallList([hole, hi], 2);
    hide Concat;
  }

  lemma TwoItems()
    ensures Inner(Queue([Hole, Str([104, 105])]))
         == Packet(15, EncodePackets([Wrapped([], Hole), Wrapped([], Str([104, 105]))]))
  {
    var q := Queue([Hole, Str([104, 105])]);
    InnerPackets(q);
    hide Wrapped, Inner, EncodePackets;
    assert ItemPackets(q.items) == [Wrapped([], Hole), Wrapped([], Str([104, 105]))];
  }

  lemma B()
    ensures EncodePacket(Wrapped([98, 0], Queue([Hole, Str([104, 105])]))) == B_BYTES
  {
    hide EncodePacket, Inner;
    QueueBytes();
    SmallPacket(15, QUEUE_BYTES, 38);
    SmallPacket(15, [98, 0] + EncodePacket(Packet(15, QUEUE_BYTES)), 49);
  }

  lemma Ten()
    ensures Decimal(10) == [49, 48]
  {
    DecimalDigits(10);
    DecimalDigits(1);
    assert ValueOf(49) == 49 && ValueOf(48) == 48;
    ValueRoundTrip(Decimal(10)[0]);
    ValueRoundTrip(Decimal(10)[1]);
    ValueRoundTrip(49);
    ValueRoundTrip(48);
    assert Decimal(10)[..1] == Decimal(1);
  }

  lemma ArrayBytes()
    ensures Inner(Array([Cell(10, SizedBuf([1, 2]))])) == Packet(13, ARRAY_BYTES)
  {
    hide EncodePacket, EncodePackets, CELL_BYTES;
    OneItem();
    hide Inner, Wrapped;
    CellPacket();
    OnePacket(Wrapped([49, 48, 0], SizedBuf([1, 2])));
    SmallList([Wrapped([49, 48, 0], SizedBuf([1, 2]))], 1);
    hide Concat;
  }

  lemma OneItem()
    ensures Inner(Array([Cell(10, SizedBuf([1, 2]))]))
         == Packet(13, EncodePackets([Wrapped([49, 48, 0], SizedBuf([1, 2]))]))
  {
    InnerPackets(Array([Cell(10, SizedBuf([1, 2]))]));
    OneCell();
    hide Wrapped, Inner, EncodePackets, FieldPackets, AsFields;
  }

  lemma OneCell()
    ensures FieldPackets(AsFields([Cell(10, SizedBuf([1, 2]))])) == [Wrapped([49, 48, 0], SizedBuf([1, 2]))]
  {
    Ten();
    hide Decimal, Wrapped;
    assert [49, 48] + [NUL] == [49, 48, 0];
  }

  lemma CellPacket()
    ensures EncodePacket(Wrapped([49, 48, 0], SizedBuf([1, 2]))) == CELL_BYTES
  {
    hide EncodePacket;
    SmallPacket(12, [1, 2], 2);
    SmallPacket(12, [49, 48, 0] + EncodePacket(Packet(12, [1, 2])), 14);
  }

  lemma C()
    ensures EncodePacket(Wrapped([99, 0], Array([Cell(10, SizedBuf([1, 2]))]))) == C_BYTES
  {
    hide EncodePacket, Inner;
    ArrayBytes();
    SmallPacket(13, ARRAY_BYTES, 31);
    SmallPacket(13, [99, 0] + EncodePacket(Packet(13, ARRAY_BYTES)), 42);
  }

  /** The bytes of the example. */
  lemma ExampleBytes()
    ensures Inner(EXAMPLE) == Packet(14, [3, 0, 0, 0, 0, 0, 0, 0] + A_BYTES + B_BYTES + C_BYTES)
  {
    var fields := EXAMPLE.fields;
    var a, b := Wrapped([97, 0], fields[0].element), Wrapped([98, 0], fields[1].element);
    var c := Wrapped([99, 0], fields[2].element);
    InnerPackets(EXAMPLE);
    assert FieldPackets(fields) == [a, b, c] by {
      assert [97] + [NUL] == [97, 0] && [98] + [NUL] == [98, 0] && [99] + [NUL] == [99, 0];
    }
    A();
    B();
    C();
    hide EncodePacket, Wrapped, Inner, FieldPackets, A_BYTES, B_BYTES, C_BYTES;
    ThreePackets(a, b, c);
    SmallList([a, b, c], 3);
    hide EncodePackets, Concat;
  }

  /** What a reader makes of them: the null entry is gone and the key is a number. */
  lemma ExampleRead(rest: seq<Byte>)
    ensures DecodeValue(14, EncodePacket(Packet(14, [3, 0, 0, 0, 0, 0, 0, 0] + A_BYTES + B_BYTES + C_BYTES)) + rest)
         == Some(Record(map[
              [97] := Simple(2, Packet(2, [5])),
              [98] := Items([Text([104, 105])]),
              [99] := Cells(map[10 := Buffer([1, 2])])]))
  {
    ExampleBytes();
    ExampleMeans();
    ExampleFits();
    hide Inner, EncodePacket, DecodeValue, Meaning, WellFormed, A_BYTES, B_BYTES, C_BYTES;
    RoundTrip(EXAMPLE, rest);
  }

  lemma ExampleFits()
    ensures WellFormed(EXAMPLE) && TagOf(EXAMPLE) == 14 && !EXAMPLE.Hole?
    ensures Fits(EXAMPLE)
  {
    ExampleBytes();
    hide Inner;
  }

  lemma QueueMeans()
    ensures Meaning(Queue([Hole, Str([104, 105])])) == Items([Text([104, 105])])
  {
    var items := [Hole, Str([104, 105])];
    var values := seq(|items|, i requires 0 <= i < |items| => Meaning(items[i]));
    assert values == [Nothing, Text([104, 105])];
    assert Meaning(Queue(items)) == Items(DropNothing(values));
    assert values[1..] == [Text([104, 105])] && values[1..][1..] == [];
    assert DropNothing(values[1..]) == [Text([104, 105])];
  }

  lemma ArrayMeans()
    ensures Meaning(Array([Cell(10, SizedBuf([1, 2]))])) == Cells(map[10 := Buffer([1, 2])])
  {
    var cells := [Cell(10, SizedBuf([1, 2]))];
    var pairs := seq(|cells|, i requires 0 <= i < |cells| => (cells[i].index, Meaning(cells[i].element)));
    assert pairs == [(10, Buffer([1, 2]))] && pairs[..0] == [];
    assert SetAll(pairs[..0]) == map[];
  }

  lemma ExampleMeans()
    ensures Meaning(EXAMPLE) == Record(map[
      [97] := Simple(2, Packet(2, [5])),
      [98] := Items([Text([104, 105])]),
      [99] := Cells(map[10 := Buffer([1, 2])])])
  {
    QueueMeans();
    ArrayMeans();
    var fields := EXAMPLE.fields;
    var pairs := seq(|fields|, i requires 0 <= i < |fields| => (fields[i].key, Meaning(fields[i].element)));
    assert Meaning(EXAMPLE) == Record(SetAll(pairs));
    var a, b, c := Simple(2, Packet(2, [5])), Items([Text([104, 105])]), Cells(map[10 := Buffer([1, 2])]);
    assert pairs == [([97], a), ([98], b), ([99], c)];
    hide Meaning;
    ThreePairs(([97], a), ([98], b), ([99], c));
  }

  lemma ThreePairs(p: (Chars, Value), q: (Chars, Value), r: (Chars, Value))
    requires !p.1.Nothing? && !q.1.Nothing? && !r.1.Nothing?
    ensures SetAll([p, q, r]) == map[p.0 := p.1][q.0 := q.1][r.0 := r.1]
  {
    assert [p, q, r][..2] == [p, q] && [p, q][..1] == [p] && [p][..0] == [];
    assert SetAll<Chars>([]) == map[];
    assert SetAll([p]) == map[p.0 := p.1];
  }
}
