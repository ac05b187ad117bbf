/** Structs, queues and arrays on the wire. An Element is what the source packs,
    with the fields of a struct in the order in which its table yields them; a
    Value is what a reader gets, where that order is forgotten. */
module Codec {
  import opened Bytes
  import opened Wire
  import opened Wrappers

  datatype Field = Field(key: Chars, element: Element)

  datatype Cell = Cell(index: nat, element: Element)

  /** struct d_struct_element; Hole is a NULL pointer in a queue. */
  datatype Element =
    | Hole
    | Packed(tag: Byte, packet: Packet)
    | Str(chars: Chars)
    | SizedBuf(bytes: seq<Byte>)
    | Array(cells: seq<Cell>)
    | Struct(fields: seq<Field>)
    | Queue(items: seq<Element>)

  /** What an element means to its reader; Nothing is the absence of one. */
  datatype Value =
    | Nothing
    | Simple(tag: Byte, packet: Packet)
    | Text(chars: Chars)
    | Buffer(bytes: seq<Byte>)
    | Cells(cells: map<nat, Value>)
    | Record(fields: map<Chars, Value>)
    | Items(items: seq<Value>)

  function TagOf(e: Element): Byte {
    match e
    case Hole => VOID
    case Packed(tag, _) => tag
    case Str(_) => STR
    case SizedBuf(_) => SIZEDBUF
    case Array(_) => ARRAY
    case Struct(_) => STRUCT
    case Queue(_) => QUEUE
  }

  // ---------- encoding ----------

  /** The packet of an element, before it is wrapped for its container. */
  function Inner(e: Element): Packet
    decreases e, 0
  {
    match e
    case Hole => Packet(VOID, [])
    case Packed(_, packet) => packet
    case Str(chars) => Packet(STR, chars + [NUL])
    case SizedBuf(bytes) => Packet(SIZEDBUF, bytes)
    case Array(cells) =>
      Packet(ARRAY, EncodePackets(seq(|cells|, i requires 0 <= i < |cells| =>
        Wrapped(Decimal(cells[i].index) + [NUL], cells[i].element))))
    case Struct(fields) =>
      Packet(STRUCT, EncodePackets(seq(|fields|, i requires 0 <= i < |fields| =>
        Wrapped(fields[i].key + [NUL], fields[i].element))))
    case Queue(items) =>
      Packet(QUEUE, EncodePackets(seq(|items|, i requires 0 <= i < |items| => Wrapped([], items[i]))))
  }

  /** The packet that stands for e in a container, after the bytes of its key. */
  function Wrapped(key: seq<Byte>, e: Element): Packet
    decreases e, 1
  {
    if e.Hole? then Packet(VOID, []) else Packet(TagOf(e), key + EncodePacket(Inner(e)))
  }

  /** The packets of d_struct_buf. */
  function FieldPackets(fields: seq<Field>): seq<Packet> {
    seq(|fields|, i requires 0 <= i < |fields| => Wrapped(fields[i].key + [NUL], fields[i].element))
  }

  function ItemPackets(items: seq<Element>): seq<Packet> {
    seq(|items|, i requires 0 <= i < |items| => Wrapped([], items[i]))
  }

  /** The struct that d_array_buf builds: each index is a decimal key. */
  function AsFields(cells: seq<Cell>): seq<Field> {
    seq(|cells|, i requires 0 <= i < |cells| => Field(Decimal(cells[i].index), cells[i].element))
  }

  lemma InnerPackets(e: Element)
    ensures e.Struct? ==> Inner(e) == Packet(STRUCT, EncodePackets(FieldPackets(e.fields)))
    ensures e.Queue? ==> Inner(e) == Packet(QUEUE, EncodePackets(ItemPackets(e.items)))
    ensures e.Array? ==> Inner(e) == Packet(ARRAY, EncodePackets(FieldPackets(AsFields(e.cells))))
  {
    if e.Array? {
      assert FieldPackets(AsFields(e.cells))
          == seq(|e.cells|, i requires 0 <= i < |e.cells| =>
               Wrapped(Decimal(e.cells[i].index) + [NUL], e.cells[i].element));
    }
  }

  // ---------- decoding ----------

  function All<T>(s: seq<Option<T>>): (r: Option<seq<T>>)
    ensures r.Some? <==> forall i | 0 <= i < |s| :: s[i].Some?
    ensures r.Some? ==> |r.value| == |s| && forall i | 0 <= i < |s| :: r.value[i] == s[i].value
  {
    if |s| == 0 then Some([])
    else
      var rest := All(s[1..]);
      if s[0].None? || rest.None? then
        assert rest.None? ==> exists i | 0 <= i < |s| - 1 :: s[1..][i].None? && s[i + 1].None?;
        None
      else Some([s[0].value] + rest.value)
  }

  /** The fields set in order: a later one replaces an earlier one of its key. */
  function SetAll<K>(pairs: seq<(K, Value)>): map<K, Value> {
    if |pairs| == 0 then map[]
    else
      var (key, value) := pairs[|pairs| - 1];
      var before := SetAll(pairs[..|pairs| - 1]);
      if value.Nothing? then before else before[key := value]
  }

  /** The keys read as numbers, as buf_d_array reads them. */
  function Indexed(pairs: seq<(Chars, Value)>): seq<(nat, Value)> {
    seq(|pairs|, i requires 0 <= i < |pairs| => (Atol(pairs[i].0), pairs[i].1))
  }

  function DropNothing(values: seq<Value>): seq<Value> {
    if |values| == 0 then []
    else (if values[0].Nothing? then [] else [values[0]]) + DropNothing(values[1..])
  }

  /** The element whose packet starts b, in a container that gives it this tag. */
  function DecodeValue(tag: Byte, b: seq<Byte>): Option<Value>
    decreases |b|, 0
  {
    var inner := DecodePacket(b);
    if inner.None? then None else DecodeInner(tag, inner.value.0)
  }

  /** The tag of the container decides how the packet is read. */
  function DecodeInner(tag: Byte, p: Packet): Option<Value>
    decreases |p.payload|, 3
  {
    if tag == STR then
      var chars := CString(p.payload);
      if chars.None? then None else Some(Text(chars.value))
    else if tag == SIZEDBUF then Some(Buffer(p.payload))
    else if tag == ARRAY then
      var pairs := DecodeFields(p.payload);
      if pairs.None? then None else Some(Cells(SetAll(Indexed(pairs.value))))
    else if tag == STRUCT then
      var pairs := DecodeFields(p.payload);
      if pairs.None? then None else Some(Record(SetAll(pairs.value)))
    else if tag == QUEUE then
      var items := DecodeItems(p.payload);
      if items.None? then None else Some(Items(DropNothing(items.value)))
    else Some(Simple(tag, p))
  }

  function DecodeItem(p: Packet): Option<Value>
    decreases |p.payload|, 1
  {
    if p.tag == VOID then Some(Nothing) else DecodeValue(p.tag, p.payload)
  }

  function DecodeField(p: Packet): Option<(Chars, Value)>
    decreases |p.payload|, 1
  {
    if p.tag == VOID then Some(([], Nothing))
    else
      var key := CString(p.payload);
      if key.None? then None
      else
        var value := DecodeValue(p.tag, p.payload[|key.value| + 1..]);
        if value.None? then None else Some((key.value, value.value))
  }

  function DecodeItems(b: seq<Byte>): Option<seq<Value>>
    decreases |b|, 2
  {
    var ps := DecodePackets(b);
    if ps.None? then None
    else All(seq(|ps.value|, i requires 0 <= i < |ps.value| => DecodeItem(ps.value[i])))
  }

  function DecodeFields(b: seq<Byte>): Option<seq<(Chars, Value)>>
    decreases |b|, 2
  {
    var ps := DecodePackets(b);
    if ps.None? then None
    else All(seq(|ps.value|, i requires 0 <= i < |ps.value| => DecodeField(ps.value[i])))
  }

  /** buf_d_struct into an empty struct. */
  function DecodeStruct(b: seq<Byte>): Option<map<Chars, Value>> {
    var pairs := DecodeFields(b);
    if pairs.None? then None else Some(SetAll(pairs.value))
  }

  // ---------- meaning ----------

  function Meaning(e: Element): Value {
    match e
    case Hole => Nothing
    case Packed(tag, packet) => Simple(tag, packet)
    case Str(chars) => Text(chars)
    case SizedBuf(bytes) => Buffer(bytes)
    case Array(cells) =>
      Cells(SetAll(seq(|cells|, i requires 0 <= i < |cells| => (cells[i].index, Meaning(cells[i].element)))))
    case Struct(fields) =>
      Record(SetAll(seq(|fields|, i requires 0 <= i < |fields| => (fields[i].key, Meaning(fields[i].element)))))
    case Queue(items) => Items(DropNothing(seq(|items|, i requires 0 <= i < |items| => Meaning(items[i]))))
  }

  /** What the set and push functions keep: keys and strings are C strings, an
      index fits a long, and a simple element has none of the other tags. */
  predicate WellFormed(e: Element) {
    match e
    case Hole => true
    case Packed(tag, packet) => tag != VOID && !PointerTag(tag) && Sound(packet)
    case Str(chars) => NoNul(chars)
    case SizedBuf(_) => true
    case Array(cells) =>
      forall i | 0 <= i < |cells| :: cells[i].index < TWO_63 && !cells[i].element.Hole? && WellFormed(cells[i].element)
    case Struct(fields) =>
      forall i | 0 <= i < |fields| :: NoNul(fields[i].key) && !fields[i].element.Hole? && WellFormed(fields[i].element)
    case Queue(items) => forall i | 0 <= i < |items| :: WellFormed(items[i])
  }

  /** The length of the packet is one that the format can state. */
  predicate Fits(e: Element) {
    |Inner(e).payload| < TWO_64
  }

  // ---------- decoding undoes encoding ----------

  lemma TagIsNotVoid(e: Element)
    requires !e.Hole? && WellFormed(e)
    ensures TagOf(e) != VOID && Sound(Inner(e))
  {
  }

  lemma FieldRoundTrip(key: Chars, e: Element)
    requires NoNul(key) && !e.Hole? && WellFormed(e) && Fits(e)
    ensures DecodeField(Wrapped(key + [NUL], e)) == Some((key, Meaning(e)))
    decreases e, 3
  {
    hide DecodeValue, EncodePacket, Inner, Meaning, WellFormed, Fits;
    var payload := key + [NUL] + EncodePacket(Inner(e));
    CStringRoundTrip(key, EncodePacket(Inner(e)));
    assert payload[|key| + 1..] == EncodePacket(Inner(e)) + [];
    TagIsNotVoid(e);
    RoundTrip(e, []);
  }

  lemma ItemRoundTrip(e: Element)
    requires WellFormed(e) && (e.Hole? || Fits(e))
    ensures DecodeItem(Wrapped([], e)) == Some(Meaning(e))
    decreases e, 3
  {
    hide DecodeValue, EncodePacket, Inner, WellFormed, Fits;
    if !e.Hole? {
      TagIsNotVoid(e);
      assert [] + EncodePacket(Inner(e)) == EncodePacket(Inner(e)) + [] == EncodePacket(Inner(e));
      RoundTrip(e, []);
    }
  }

  /** Decoding gives back the meaning of every element, whatever order its tables
      have, and ignores the bytes after it. */
  lemma {:induction false} RoundTrip(e: Element, rest: seq<Byte>)
    requires !e.Hole? && WellFormed(e) && Fits(e)
    ensures DecodeValue(TagOf(e), EncodePacket(Inner(e)) + rest) == Some(Meaning(e))
    decreases e, 2
  {
    hide EncodePacket, DecodeInner, Inner, Meaning, WellFormed, Sound;
    TagIsNotVoid(e);
    PacketRoundTrip(Inner(e), rest);
    InnerRoundTrip(e);
  }

  lemma InnerRoundTrip(e: Element)
    requires !e.Hole? && WellFormed(e) && Fits(e)
    ensures DecodeInner(TagOf(e), Inner(e)) == Some(Meaning(e))
    decreases e, 1
  {
    hide DecodeFields, DecodeItems, SetAll, DropNothing, EncodePackets;
    match e
    case Packed(tag, packet) =>
    case Str(chars) =>
      CStringRoundTrip(chars, []);
      assert chars + [NUL] + [] == chars + [NUL];
    case SizedBuf(bytes) =>
    case Array(cells) => CellsRoundTrip(e);
    case Struct(fields) => FieldsRoundTrip(e, []);
    case Queue(items) => ItemsRoundTrip(e);
  }

  // ---------- containers ----------

  /** What is inside a list of packets is shorter than the list. */
  lemma PartsFit(key: seq<Byte>, e: Element, ps: seq<Packet>, i: nat)
    requires i < |ps| && ps[i] == Wrapped(key, e) && |EncodePackets(ps)| < TWO_64
    ensures e.Hole? || Fits(e)
  {
    ConcatBounds(ps);
  }

  lemma WrappedIsSound(key: seq<Byte>, e: Element)
    requires WellFormed(e)
    ensures Sound(Wrapped(key, e))
  {
  }

  function Pairs(fields: seq<Field>): seq<(Chars, Value)> {
    seq(|fields|, i requires 0 <= i < |fields| => (fields[i].key, Meaning(fields[i].element)))
  }

  /** The packets are read back one by one. */
  lemma FieldsDecode(fields: seq<Field>, rest: seq<Byte>)
    requires |EncodePackets(FieldPackets(fields))| < TWO_64
    requires forall i | 0 <= i < |fields| ::
      WellFormed(fields[i].element)
      && DecodeField(FieldPackets(fields)[i]) == Some((fields[i].key, Meaning(fields[i].element)))
    ensures DecodeFields(EncodePackets(FieldPackets(fields)) + rest) == Some(Pairs(fields))
  {
    hide DecodeField, EncodePackets, Wrapped, WellFormed, Meaning, DecodePackets;
    var ps := FieldPackets(fields);
    forall i | 0 <= i < |ps| ensures Sound(ps[i]) {
      WrappedIsSound(fields[i].key + [NUL], fields[i].element);
    }
    PacketsRoundTrip(ps, rest);
    var decoded := seq(|ps|, i requires 0 <= i < |ps| => DecodeField(ps[i]));
    assert All(decoded).value == Pairs(fields);
  }

  lemma FieldsRoundTrip(e: Element, rest: seq<Byte>)
    requires e.Struct? && WellFormed(e) && Fits(e)
    ensures Inner(e).payload == EncodePackets(FieldPackets(e.fields))
    ensures DecodeFields(EncodePackets(FieldPackets(e.fields)) + rest) == Some(Pairs(e.fields))
    ensures DecodeFields(EncodePackets(FieldPackets(e.fields))) == Some(Pairs(e.fields))
    ensures Meaning(e) == Record(SetAll(Pairs(e.fields)))
    decreases e, 0
  {
    InnerPackets(e);
    hide DecodeField, DecodeFields, EncodePackets, Wrapped, SetAll, Inner;
    var ps := FieldPackets(e.fields);
    forall i | 0 <= i < |e.fields|
      ensures DecodeField(ps[i]) == Some((e.fields[i].key, Meaning(e.fields[i].element)))
    {
      PartsFit(e.fields[i].key + [NUL], e.fields[i].element, ps, i);
      FieldRoundTrip(e.fields[i].key, e.fields[i].element);
    }
    FieldsDecode(e.fields, rest);
    FieldsDecode(e.fields, []);
    assert EncodePackets(ps) + [] == EncodePackets(ps);
    assert Pairs(e.fields)
        == seq(|e.fields|, i requires 0 <= i < |e.fields| => (e.fields[i].key, Meaning(e.fields[i].element)));
  }

  lemma CellsRoundTrip(e: Element)
    requires e.Array? && WellFormed(e) && Fits(e)
    ensures var pairs := DecodeFields(Inner(e).payload);
      pairs.Some? && Meaning(e) == Cells(SetAll(Indexed(pairs.value)))
    decreases e, 0
  {
    InnerPackets(e);
    hide DecodeField, DecodeFields, EncodePackets, Wrapped, SetAll, Inner, Decimal, Atol;
    var fields := AsFields(e.cells);
    var ps := FieldPackets(fields);
    forall i | 0 <= i < |fields|
      ensures DecodeField(ps[i]) == Some((fields[i].key, Meaning(fields[i].element)))
      ensures Atol(fields[i].key) == e.cells[i].index
    {
      DecimalRoundTrip(e.cells[i].index);
      PartsFit(fields[i].key + [NUL], fields[i].element, ps, i);
      FieldRoundTrip(fields[i].key, e.cells[i].element);
    }
    FieldsDecode(fields, []);
    assert EncodePackets(ps) + [] == EncodePackets(ps);
    assert Indexed(Pairs(fields))
        == seq(|e.cells|, i requires 0 <= i < |e.cells| => (e.cells[i].index, Meaning(e.cells[i].element)));
  }

  lemma ItemsRoundTrip(e: Element)
    requires e.Queue? && WellFormed(e) && Fits(e)
    ensures var items := DecodeItems(Inner(e).payload);
      items.Some? && Meaning(e) == Items(DropNothing(items.value))
    decreases e, 0
  {
    InnerPackets(e);
    hide DecodeItem, DecodePackets, EncodePackets, Wrapped, DropNothing, Inner, Sound;
    var ps := ItemPackets(e.items);
    forall i | 0 <= i < |ps| ensures Sound(ps[i]) && DecodeItem(ps[i]) == Some(Meaning(e.items[i])) {
      WrappedIsSound([], e.items[i]);
      PartsFit([], e.items[i], ps, i);
      ItemRoundTrip(e.items[i]);
    }
    PacketsRoundTrip(ps, []);
    assert EncodePackets(ps) + [] == EncodePackets(ps);
    var decoded := seq(|ps|, i requires 0 <= i < |ps| => DecodeItem(ps[i]));
    assert All(decoded).value == seq(|e.items|, i requires 0 <= i < |e.items| => Meaning(e.items[i]));
  }

  /** buf_d_struct after d_struct_buf. */
  lemma StructBytesRoundTrip(fields: seq<Field>, rest: seq<Byte>)
    requires WellFormed(Struct(fields)) && Fits(Struct(fields))
    ensures DecodeStruct(EncodePackets(FieldPackets(fields)) + rest) == Some(SetAll(Pairs(fields)))
    ensures Meaning(Struct(fields)) == Record(SetAll(Pairs(fields)))
  {
    FieldsRoundTrip(Struct(fields), rest);
  }

  lemma FieldsWellFormed(fields: seq<Field>)
    requires forall i | 0 <= i < |fields| ::
      NoNul(fields[i].key) && !fields[i].element.Hole? && WellFormed(fields[i].element)
    ensures WellFormed(Struct(fields))
  {
  }

  // ---------- the order of the fields ----------

  predicate DistinctKeys<K(==)>(pairs: seq<(K, Value)>) {
    forall i, j | 0 <= i < j < |pairs| :: pairs[i].0 != pairs[j].0
  }

  lemma {:induction false} KeyComesFrom<K>(pairs: seq<(K, Value)>, key: K)
    requires key in SetAll(pairs)
    ensures exists i :: 0 <= i < |pairs| && pairs[i].0 == key
  {
    var n := |pairs| - 1;
    if pairs[n].0 != key {
      KeyComesFrom(pairs[..n], key);
      var i :| 0 <= i < n && pairs[..n][i].0 == key;
      assert pairs[i].0 == key;
    }
  }

  /** With distinct keys, the fields set are exactly the pairs. */
  lemma {:induction false} SetAllIsThePairs<K>(pairs: seq<(K, Value)>)
    requires DistinctKeys(pairs) && forall i | 0 <= i < |pairs| :: !pairs[i].1.Nothing?
    ensures forall k, v :: k in SetAll(pairs) && SetAll(pairs)[k] == v <==> (k, v) in pairs
    ensures |SetAll(pairs)| == |pairs|
  {
    if |pairs| > 0 {
      var n := |pairs| - 1;
      SetAllIsThePairs(pairs[..n]);
      var before := SetAll(pairs[..n]);
      var (key, value) := pairs[n];
      if key in before {
        KeyComesFrom(pairs[..n], key);
      }
      assert pairs == pairs[..n] + [(key, value)];
    }
  }

  /** One element taken out at the front and put back behind the others. */
  lemma Rotation<T>(all: seq<T>, i: nat)
    requires i < |all|
    ensures var que := all[i..] + all[..i];
      que[0] == all[i] && que[1..] == all[i + 1..] + all[..i] && que[1..] + [que[0]] == all[i + 1..] + all[..i + 1]
  {
  }

  lemma {:induction false} WholeSubset<T>(a: set<T>, b: set<T>)
    requires a <= b && |a| == |b|
    ensures a == b
  {
    if a != {} {
      var x :| x in a;
      WholeSubset(a - {x}, b - {x});
    }
  }

  /** Pairs of a map, distinct and as many as it has keys, make the map. */
  lemma SetAllIs<K(!new)>(pairs: seq<(K, Value)>, m: map<K, Value>)
    requires DistinctKeys(pairs) && |pairs| == |m|
    requires forall x | 0 <= x < |pairs| :: !pairs[x].1.Nothing? && pairs[x].0 in m && m[pairs[x].0] == pairs[x].1
    ensures SetAll(pairs) == m
  {
    SetAllIsThePairs(pairs);
    hide SetAll;
    forall k | k in SetAll(pairs) ensures k in m && SetAll(pairs)[k] == m[k] {
      assert (k, SetAll(pairs)[k]) in pairs;
    }
    WholeSubset(SetAll(pairs).Keys, m.Keys);
  }

  /** The decoded struct is the same for every order of the fields. */
  lemma OrderIsForgotten(fields: seq<Field>, shuffled: seq<Field>, rest: seq<Byte>)
    requires forall f :: f in fields <==> f in shuffled
    requires DistinctFields(fields) && DistinctFields(shuffled)
    requires WellFormed(Struct(fields)) && Fits(Struct(fields)) && Fits(Struct(shuffled))
    ensures DecodeStruct(EncodePackets(FieldPackets(shuffled)) + rest)
         == DecodeStruct(EncodePackets(FieldPackets(fields)) + rest)
  {
    FieldsRoundTrip(Struct(fields), rest);
    forall i | 0 <= i < |shuffled|
      ensures NoNul(shuffled[i].key) && !shuffled[i].element.Hole? && WellFormed(shuffled[i].element)
    {
      assert shuffled[i] in fields;
    }
    FieldsRoundTrip(Struct(shuffled), rest);
    SameMeaning(fields, shuffled);
  }

  predicate DistinctFields(fields: seq<Field>) {
    forall i, j | 0 <= i < j < |fields| :: fields[i].key != fields[j].key
  }

  lemma SameMeaning(fields: seq<Field>, shuffled: seq<Field>)
    requires forall f :: f in fields <==> f in shuffled
    requires DistinctFields(fields) && DistinctFields(shuffled)
    requires forall f | f in fields :: !f.element.Hole?
    ensures SetAll(Pairs(fields)) == SetAll(Pairs(shuffled))
  {
    hide Meaning;
    var m, n := SetAll(Pairs(fields)), SetAll(Pairs(shuffled));
    forall f | f in fields ensures !Meaning(f.element).Nothing? {
      MeansSomething(f.element);
    }
    SetAllIsThePairs(Pairs(fields));
    SetAllIsThePairs(Pairs(shuffled));
    PairsOf(fields, shuffled);
    PairsOf(shuffled, fields);
    assert forall k | k in m :: k in n && m[k] == n[k] by {
      forall k | k in m ensures k in n && m[k] == n[k] {
        assert (k, m[k]) in Pairs(fields);
      }
    }
    assert forall k | k in n :: k in m by {
      forall k | k in n ensures k in m {
        assert (k, n[k]) in Pairs(shuffled);
      }
    }
  }

  lemma MeansSomething(e: Element)
    ensures Meaning(e).Nothing? <==> e.Hole?
  {
  }

  lemma PairsOf(fields: seq<Field>, shuffled: seq<Field>)
    requires forall f :: f in fields ==> f in shuffled
    ensures forall p :: p in Pairs(fields) ==> p in Pairs(shuffled)
  {
    hide Meaning;
    forall p | p in Pairs(fields) ensures p in Pairs(shuffled) {
      var i :| 0 <= i < |fields| && Pairs(fields)[i] == p;
      assert fields[i] in shuffled;
      var j :| 0 <= j < |shuffled| && shuffled[j] == fields[i];
      assert Pairs(shuffled)[j] == p;
    }
  }
}
