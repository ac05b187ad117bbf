/** d_struct_buf and buf_d_struct: a struct object to bytes and back. */
module DStructBuffers {
  import opened Bytes
  import opened Wrappers
  import opened HashTable
  import opened Wire
  import opened Codec
  import opened WireBuffers
  import opened DStructs

  // ---------- packing ----------

  function FieldsOf(entries: seq<(Key, Element)>): seq<Field> {
    seq(|entries|, i requires 0 <= i < |entries| => Field(entries[i].0, entries[i].1))
  }

  /** Every field can be packed. */
  ghost predicate Packable(m: map<Key, Element>) {
    forall k | k in m :: NoNul(k) && !m[k].Hole? && WellFormed(m[k])
  }

  function PacketsOf(entries: seq<(Key, Element)>): (ps: seq<Packet>)
    ensures |ps| == |entries|
  {
    FieldPackets(FieldsOf(entries))
  }

  /** The bytes of a struct whose table has these slots. */
  function BytesOf(b: seq<Entry<Element>>): seq<Byte> {
    EncodePackets(PacketsOf(EntriesOf(b)))
  }

  lemma OneMorePacket(entries: seq<(Key, Element)>, key: Key, e: Element)
    ensures PacketsOf(entries + [(key, e)]) == PacketsOf(entries) + [Wrapped(key + [NUL], e)]
    ensures Concat(PacketsOf(entries + [(key, e)]))
         == Concat(PacketsOf(entries)) + EncodePacket(Wrapped(key + [NUL], e))
  {
    hide Wrapped, EncodePacket;
    assert PacketsOf(entries + [(key, e)]) == PacketsOf(entries) + [Wrapped(key + [NUL], e)];
    ConcatAppend(PacketsOf(entries), Wrapped(key + [NUL], e));
  }

  method MakeWrapped(key: Key, e: Element) returns (p: Packet)
    requires !e.Hole? && WellFormed(e)
    ensures p == Wrapped(key + [NUL], e)
  {
    hide EncodePacket, Inner, WellFormed;
    TagIsNotVoid(e);
    p := WrapPacket(key + [NUL], TagOf(e), Inner(e));
  }

  /** The loop over the slots: the array has a place for every field, and every
      place is filled. */
  method PackFields(d: DStruct<Element>) returns (packed: array<Packet>, length: nat)
    requires d.Valid() && Packable(d.Map())
    ensures fresh(packed) && packed[..] == PacketsOf(EntriesOf(d.Table.body[..]))
    ensures length == |Concat(packed[..])|
  {
    hide Represents, EntriesOf, EncodePacket, WellFormed, Wrapped, PacketsOf;
    packed := new Packet[d.currentLen];
    length := 0;
    ghost var b := d.Table.body[..];
    var j := 0;
    NoEntries(b);
    for i := 0 to d.Table.capacity
      invariant j == |EntriesOf(b[..i])| <= d.currentLen && packed[..j] == PacketsOf(EntriesOf(b[..i]))
      invariant length == |Concat(PacketsOf(EntriesOf(b[..i])))|
    {
      MoreEntries(d.Table, i);
      if d.Table.body[i].Live? {
        var key, element := d.Table.body[i].key, d.Table.body[i].value;
        OnlyKeyAt(b, d.Table.Map, d.Table.Where, i);
        OneMorePacket(EntriesOf(b[..i]), key, element);
        ghost var filled := packed[..j];
        var p := MakeWrapped(key, element);
        assert packed[..j] == filled;
        packed[j] := p;
        assert packed[..j + 1] == filled + [p];
        length := length + DrpcTypeBuflen(p);
        j := j + 1;
      }
    }
    assert b[..|b|] == b;
    AllEntries(b, d.Table.Map, d.Table.Where);
    assert packed[..j] == packed[..];
  }

  lemma PacketsAreSound(b: seq<Entry<Element>>, m: map<Key, Element>, w: map<Key, nat>)
    requires Represents(b, m, w) && Packable(m)
    ensures |EntriesOf(b)| == |m| && WellFormed(Struct(FieldsOf(EntriesOf(b))))
    ensures forall i | 0 <= i < |PacketsOf(EntriesOf(b))| :: Sound(PacketsOf(EntriesOf(b))[i])
  {
    hide Represents, EntriesOf, WellFormed, Sound, Wrapped;
    AllEntries(b, m, w);
    var e := EntriesOf(b);
    forall i | 0 <= i < |m| ensures NoNul(e[i].0) && !e[i].1.Hole? && WellFormed(e[i].1) && Sound(PacketsOf(e)[i]) {
      var (k, v) := e[i];
      assert (k, v) in e;
      WrappedIsSound(k + [NUL], v);
    }
    FieldsWellFormed(FieldsOf(e));
  }

  lemma {:induction false} ZeroLength(k: nat)
    ensures Little(0, k) == Zeros(k)
  {
    if k > 0 {
      ZeroLength(k - 1);
      assert ByteOf(0) == 0;
      assert Zeros(k) == [0] + Zeros(k - 1);
    }
  }

  /** d_struct_buf. The length reported is the number of bytes written. */
  method DStructBuf(d: DStruct<Element>) returns (buf: array<Byte>, buflen: nat)
    requires d.Valid() && Packable(d.Map())
    ensures fresh(buf) && buflen == buf.Length && buf[..] == BytesOf(d.Table.body[..])
  {
    hide Represents, EntriesOf, EncodePacket, WellFormed, Wrapped, Le64, Sound, PacketsOf;
    ghost var b := d.Table.body[..];
    PacketsAreSound(b, d.Table.Map, d.Table.Where);
    if d.currentLen == 0 {
      buflen := 8;
      buf := new Byte[8](_ => 0);
      EmptyStruct();
      assert buf[..] == Zeros(8);
      assert EntriesOf(b) == [];
      return;
    }
    var packed, length := PackFields(d);
    buflen := length + 8;
    buf := new Byte[buflen];
    DrpcTypesBuf(packed[..], buf);
    assert buf[..buflen] == buf[..];
  }

  lemma EmptyStruct()
    ensures EncodePackets(PacketsOf([])) == Zeros(8)
  {
    ZeroLength(8);
  }

  /** What a reader makes of the packed struct: its map, whatever the order of the
      slots, and whatever follows. */
  lemma PackedStructMeansItsMap(b: seq<Entry<Element>>, m: map<Key, Element>, w: map<Key, nat>, rest: seq<Byte>)
    requires Represents(b, m, w) && Packable(m) && |BytesOf(b)| < TWO_64
    ensures DecodeStruct(BytesOf(b) + rest) == Some(map k | k in m :: Meaning(m[k]))
    ensures DecodeFields(BytesOf(b) + rest).Some?
    ensures DistinctKeys(Present(DecodeFields(BytesOf(b) + rest).value))
  {
    hide Represents, EntriesOf, WellFormed, EncodePackets, Meaning, DecodeStruct;
    var e := EntriesOf(b);
    var fields := FieldsOf(e);
    PacketsAreSound(b, m, w);
    InnerPackets(Struct(fields));
    StructBytesRoundTrip(fields, rest);
    AllEntries(b, m, w);
    PairsAreTheMap(e, m);
    FieldsRoundTrip(Struct(fields), rest);
    AllPresent(Pairs(fields));
  }

  lemma {:induction false} AllPresent(pairs: seq<(Chars, Value)>)
    requires forall i | 0 <= i < |pairs| :: !pairs[i].1.Nothing?
    ensures Present(pairs) == pairs
  {
    if |pairs| > 0 {
      AllPresent(pairs[..|pairs| - 1]);
    }
  }

  lemma PairsAreTheMap(e: seq<(Key, Element)>, m: map<Key, Element>)
    requires forall k, v :: (k, v) in e <==> k in m && m[k] == v
    requires forall x, y | 0 <= x < y < |e| :: e[x].0 != e[y].0
    requires forall k | k in m :: !m[k].Hole?
    ensures SetAll(Pairs(FieldsOf(e))) == map k | k in m :: Meaning(m[k])
    ensures DistinctKeys(Pairs(FieldsOf(e))) && forall i | 0 <= i < |e| :: !Pairs(FieldsOf(e))[i].1.Nothing?
  {
    hide Meaning, SetAll;
    var pairs := Pairs(FieldsOf(e));
    forall i | 0 <= i < |pairs| ensures !pairs[i].1.Nothing? {
      assert (e[i].0, e[i].1) in e;
      MeansSomething(e[i].1);
    }
    PairsInMap(e, m);
    SetAllIsThePairs(pairs);
    hide Pairs, FieldsOf, DistinctKeys;
    forall k | k in SetAll(pairs) ensures k in m && SetAll(pairs)[k] == Meaning(m[k]) {
      assert (k, SetAll(pairs)[k]) in pairs;
    }
    forall k | k in m ensures k in SetAll(pairs) {
      assert (k, Meaning(m[k])) in pairs;
    }
  }

  lemma PairsInMap(e: seq<(Key, Element)>, m: map<Key, Element>)
    requires forall k, v :: (k, v) in e <==> k in m && m[k] == v
    ensures forall k, v :: (k, v) in Pairs(FieldsOf(e)) <==> k in m && v == Meaning(m[k])
  {
    hide Meaning;
    var pairs := Pairs(FieldsOf(e));
    forall k, v | (k, v) in pairs ensures k in m && v == Meaning(m[k]) {
      var i :| 0 <= i < |pairs| && pairs[i] == (k, v);
      assert (e[i].0, e[i].1) in e;
    }
    forall k | k in m ensures (k, Meaning(m[k])) in pairs {
      var i :| 0 <= i < |e| && e[i] == (k, m[k]);
      assert pairs[i] == (k, Meaning(m[k]));
    }
  }

  // ---------- unpacking ----------

  /** The fields on the wire that are not void. */
  function Present(pairs: seq<(Chars, Value)>): seq<(Chars, Value)> {
    if |pairs| == 0 then []
    else
      var last := pairs[|pairs| - 1];
      Present(pairs[..|pairs| - 1]) + if last.1.Nothing? then [] else [last]
  }

  lemma SetLast(pairs: seq<(Chars, Value)>, last: (Chars, Value))
    requires !last.1.Nothing?
    ensures SetAll(pairs + [last]) == SetAll(pairs)[last.0 := last.1]
  {
    assert (pairs + [last])[..|pairs|] == pairs;
  }

  lemma {:induction false} SetAllPresent(pairs: seq<(Chars, Value)>)
    ensures SetAll(Present(pairs)) == SetAll(pairs)
    ensures forall p :: p in Present(pairs) ==> !p.1.Nothing?
  {
    if |pairs| > 0 {
      var n := |pairs| - 1;
      SetAllPresent(pairs[..n]);
      if !pairs[n].1.Nothing? {
        SetLast(Present(pairs[..n]), pairs[n]);
      } else {
        assert Present(pairs) == Present(pairs[..n]);
      }
    }
  }

  lemma NewKey(pairs: seq<(Chars, Value)>, last: (Chars, Value))
    requires forall p :: p in pairs ==> !p.1.Nothing?
    ensures DistinctKeys(pairs + [last]) <==> DistinctKeys(pairs) && last.0 !in SetAll(pairs)
  {
    hide SetAll;
    var all := pairs + [last];
    if last.0 in SetAll(pairs) {
      KeyComesFrom(pairs, last.0);
      var i :| 0 <= i < |pairs| && pairs[i].0 == last.0;
      assert all[i].0 == all[|pairs|].0;
    } else {
      forall i | 0 <= i < |pairs| ensures all[i].0 != last.0 {
        AllKeysSet(pairs, i);
      }
    }
    assert DistinctKeys(all) ==> DistinctKeys(pairs) by {
      if DistinctKeys(all) {
        forall i, j | 0 <= i < j < |pairs| ensures pairs[i].0 != pairs[j].0 {
          assert all[i].0 != all[j].0;
        }
      }
    }
  }

  lemma {:induction false} SetAllSize(pairs: seq<(Chars, Value)>)
    requires forall p :: p in pairs ==> !p.1.Nothing?
    ensures |SetAll(pairs)| <= |pairs|
    ensures |SetAll(pairs)| == |pairs| <==> DistinctKeys(pairs)
  {
    if |pairs| > 0 {
      var n := |pairs| - 1;
      var (key, value) := pairs[n];
      var before := SetAll(pairs[..n]);
      SetAllSize(pairs[..n]);
      assert pairs[n] in pairs;
      assert pairs == pairs[..n] + [pairs[n]];
      SetLast(pairs[..n], pairs[n]);
      NewKey(pairs[..n], pairs[n]);
      if key in before {
        assert before[key := value].Keys == before.Keys;
      } else {
        assert before[key := value].Keys == before.Keys + {key};
      }
    }
  }

  lemma {:induction false} AllKeysSet(pairs: seq<(Chars, Value)>, i: nat)
    requires i < |pairs| && !pairs[i].1.Nothing?
    ensures pairs[i].0 in SetAll(pairs)
  {
    var n := |pairs| - 1;
    if i < n {
      AllKeysSet(pairs[..n], i);
    }
  }

  /** The count that buf_d_struct leaves is right exactly when no key comes twice. */
  lemma CountIsRight(pairs: seq<(Chars, Value)>)
    ensures |Present(pairs)| == |SetAll(pairs)| <==> DistinctKeys(Present(pairs))
  {
    SetAllPresent(pairs);
    SetAllSize(Present(pairs));
  }

  /** The struct after some of the fields have been read; before is what it held. */
  ghost predicate Loaded(d: DStruct<Value>, before: map<Key, Value>, done: seq<(Chars, Value)>)
    reads d, d.Table, d.Table.body
  {
    && d.Table.Valid()
    && d.Map() == before + SetAll(done) && d.currentLen == |before| + |Present(done)|
  }

  lemma {:induction false} KeysMerged<V>(m: map<Key, V>, n: map<Key, V>)
    ensures |m + n| <= |m| + |n|
    ensures |m + n| == |m| + |n| <==> m.Keys !! n.Keys
  {
    assert (m + n).Keys == m.Keys + n.Keys;
    assert |m.Keys + n.Keys| + |m.Keys * n.Keys| == |m| + |n|;
  }

  /** The count is right if and only if no key comes twice and none was there before. */
  lemma CountAfter(before: map<Key, Value>, pairs: seq<(Chars, Value)>)
    ensures |before + SetAll(pairs)| == |before| + |Present(pairs)| <==>
      DistinctKeys(Present(pairs)) && before.Keys !! SetAll(pairs).Keys
  {
    CountIsRight(pairs);
    SetAllPresent(pairs);
    SetAllSize(Present(pairs));
    KeysMerged(before, SetAll(pairs));
  }

  lemma DecodesSomething(tag: Byte, b: seq<Byte>)
    ensures DecodeValue(tag, b).Some? ==> !DecodeValue(tag, b).value.Nothing?
  {
  }

  /** One field set; ended is false if probing for its key does not end. */
  method LoadField(p: Packet, d: DStruct<Value>, ghost before: map<Key, Value>, ghost done: seq<(Chars, Value)>)
    returns (ended: bool)
    requires Loaded(d, before, done) && p.tag != VOID && DecodeField(p).Some?
    modifies d, d.Table, d.Table.body
    ensures ended ==> Loaded(d, before, done + [DecodeField(p).value])
    ensures !ended ==> Loaded(d, before, done) && !DecodeField(p).value.1.Nothing?
                       && !d.Table.ProbeEnds(DecodeField(p).value.0)
    ensures NoDead(old(d.Table.body[..])) ==> ended && NoDead(d.Table.body[..])
    ensures d.Table.body == old(d.Table.body) || fresh(d.Table.body)
  {
    hide DecodeValue, DecodeField, CString, Loaded;
    FieldParts(p);
    var key := CString(p.payload).value;
    var element := DecodeValue(p.tag, p.payload[|key| + 1..]).value;
    PushKey(d, key, before, done);
    ended := Reachable(d.Table, key);
    if ended {
      StoreField(key, element, d, before, done);
    }
  }

  method PushKey(d: DStruct<Value>, key: Key, ghost before: map<Key, Value>, ghost done: seq<(Chars, Value)>)
    requires Loaded(d, before, done)
    modifies d`heapKeys
    ensures Loaded(d, before, done) && d.Table.Valid() && d.heapKeys == old(d.heapKeys) + [key]
  {
    hide Represents, SetAll, Present;
    d.heapKeys := d.heapKeys + [key];
  }

  method StoreField(key: Key, element: Value, d: DStruct<Value>,
                    ghost before: map<Key, Value>, ghost done: seq<(Chars, Value)>)
    requires Loaded(d, before, done) && !element.Nothing? && d.Table.ProbeEnds(key)
    modifies d, d.Table, d.Table.body
    ensures Loaded(d, before, done + [(key, element)])
    ensures NoDead(old(d.Table.body[..])) ==> NoDead(d.Table.body[..])
    ensures d.Table.body == old(d.Table.body) || fresh(d.Table.body)
  {
    hide Represents, NoDead, SetAll, Present, HasNull, Nulls, AddFresh;
    OneMoreLoaded(before, done, key, element);
    d.Table.SetUnlocked(key, element);
    d.currentLen := d.currentLen + 1;
  }

  /** Whether probing for the key ends. */
  method Reachable(table: Hashtable<Value>, key: Key) returns (ends: bool)
    requires table.Valid()
    ensures ends <==> table.ProbeEnds(key)
    ensures NoDead(table.body[..]) ==> ends
  {
    hide Represents, NoDead, HasNull, Stops;
    RoomWithoutDead(table);
    ProbingEnds(table.body[..], table.Map, table.Where, key);
    ends := exists i | 0 <= i < table.body.Length :: Stops(table.body[i], key);
  }

  lemma RoomWithoutDead(table: Hashtable<Value>)
    requires table.Valid()
    ensures NoDead(table.body[..]) ==> HasNull(table.body[..])
  {
    hide Represents, NoDead, HasNull;
    if NoDead(table.body[..]) {
      RoomLeft(table.body[..], table.Map, table.Where);
    }
  }

  lemma FieldParts(p: Packet)
    requires p.tag != VOID && DecodeField(p).Some?
    ensures CString(p.payload).Some?
    ensures var key := CString(p.payload).value;
      var element := DecodeValue(p.tag, p.payload[|key| + 1..]);
      element.Some? && !element.value.Nothing? && DecodeField(p).value == (key, element.value)
  {
    hide CString;
    DecodesSomething(p.tag, p.payload[|CString(p.payload).value| + 1..]);
  }

  lemma OneMoreLoaded(before: map<Key, Value>, done: seq<(Chars, Value)>, key: Chars, element: Value)
    requires !element.Nothing?
    ensures before + SetAll(done + [(key, element)]) == (before + SetAll(done))[key := element]
    ensures |Present(done + [(key, element)])| == |Present(done)| + 1
  {
    assert (done + [(key, element)])[..|done|] == done;
  }

  lemma {:induction false} FromZeros(k: nat)
    ensures FromLittle(Zeros(k)) == 0
  {
    if k > 0 {
      FromZeros(k - 1);
      assert ValueOf(0) == 0;
      assert Zeros(k)[1..] == Zeros(k - 1);
    }
  }

  lemma ZeroCount(b: seq<Byte>)
    requires |b| >= 8 && b[..8] == Zeros(8)
    ensures DecodeFields(b) == Some([])
  {
    FromZeros(8);
  }

  lemma FieldsOfPackets(b: seq<Byte>, ps: seq<Packet>, i: nat)
    requires DecodeFields(b).Some? && DecodePackets(b) == Some(ps) && i < |ps|
    ensures |DecodeFields(b).value| == |ps| && DecodeField(ps[i]) == Some(DecodeFields(b).value[i])
  {
    hide DecodePackets, DecodeField;
  }

  /** buf_d_struct: the fields that the bytes say replace or join those that the
      struct has, and its count is right if and only if no key comes twice and none
      was there before. It comes to the end of the n fields that there are, unless
      fields were removed from the struct before and probing for a new key goes on
      for ever; n is how many it has read then. */
  method BufDStruct(buf: array<Byte>, at: nat, d: DStruct<Value>) returns (n: nat)
    requires at <= buf.Length && DecodeFields(buf[at..]).Some?
    requires d.Valid()
    modifies d, d.Table, d.Table.body
    ensures n <= |DecodeFields(old(buf[at..])).value|
    ensures var pairs := DecodeFields(old(buf[at..])).value;
      && d.Table.Valid() && d.Map() == old(d.Map()) + SetAll(pairs[..n])
      && d.currentLen == old(d.currentLen) + |Present(pairs[..n])|
      && (d.Valid() <==> DistinctKeys(Present(pairs[..n])) && old(d.Map()).Keys !! SetAll(pairs[..n]).Keys)
      && (n < |pairs| ==> !pairs[n].1.Nothing? && !d.Table.ProbeEnds(pairs[n].0))
      && (NoDead(old(d.Table.body[..])) ==> n == |pairs| && NoDead(d.Table.body[..]))
  {
    hide Represents, DecodePackets, DecodeField, DecodeFields, FromLe64, NoDead, HasNull, SetAll,
         Present, DistinctKeys, DecodeStruct;
    ghost var b := buf[at..];
    ghost var pairs := DecodeFields(b).value;
    ghost var before := d.Map();
    NothingRead(b);
    CountAfter(before, []);
    var header := Get(buf, at, 8);
    if header == Zeros(8) {
      assert b[..8] == header;
      ZeroCount(b);
      return 0;
    }
    var types := BufDrpcTypes(buf, at);
    n := LoadFields(types[..], d, before, b);
    CountAfter(before, pairs[..n]);
  }

  /** The loop of buf_d_struct over the packets. */
  method LoadFields(ps: seq<Packet>, d: DStruct<Value>, ghost before: map<Key, Value>, ghost b: seq<Byte>)
    returns (n: nat)
    requires DecodeFields(b).Some? && DecodePackets(b) == Some(ps) && Loaded(d, before, [])
    modifies d, d.Table, d.Table.body
    ensures n <= |DecodeFields(b).value| && Loaded(d, before, DecodeFields(b).value[..n])
    ensures n < |DecodeFields(b).value| ==>
      var (key, value) := DecodeFields(b).value[n]; !value.Nothing? && !d.Table.ProbeEnds(key)
    ensures NoDead(old(d.Table.body[..])) ==> n == |DecodeFields(b).value| && NoDead(d.Table.body[..])
  {
    hide Represents, DecodePackets, DecodeField, DecodeFields, NoDead, HasNull, SetAll, Present, Loaded;
    ghost var pairs := DecodeFields(b).value;
    NothingRead(b);
    n := 0;
    while n < |ps|
      invariant n <= |ps| == |pairs| && Loaded(d, before, pairs[..n])
      invariant d.Table.body == old(d.Table.body) || fresh(d.Table.body)
      invariant NoDead(old(d.Table.body[..])) ==> NoDead(d.Table.body[..])
    {
      FieldsOfPackets(b, ps, n);
      assert pairs[..n + 1] == pairs[..n] + [pairs[n]];
      if ps[n].tag == VOID {
        SkipField(d, before, ps[n], pairs[..n]);
      } else {
        var ended := LoadField(ps[n], d, before, pairs[..n]);
        if !ended {
          return;
        }
      }
      n := n + 1;
    }
  }

  lemma SkipField(d: DStruct<Value>, before: map<Key, Value>, p: Packet, done: seq<(Chars, Value)>)
    requires p.tag == VOID && DecodeField(p).Some? && Loaded(d, before, done)
    ensures Loaded(d, before, done + [DecodeField(p).value])
  {
    hide SetAll, Present;
    VoidField(p, done);
  }

  lemma NothingRead(b: seq<Byte>)
    requires DecodeFields(b).Some?
    ensures |b| >= 8 && DecodePackets(b).Some? && |DecodePackets(b).value| == |DecodeFields(b).value|
    ensures DecodeStruct(b) == Some(SetAll(DecodeFields(b).value))
    ensures SetAll<Chars>([]) == map[] && Present([]) == []
  {
    hide DecodeField;
  }

  lemma VoidField(p: Packet, done: seq<(Chars, Value)>)
    requires p.tag == VOID
    ensures var pair := DecodeField(p).value;
      SetAll(done + [pair]) == SetAll(done) && Present(done + [pair]) == Present(done)
  {
    assert (done + [DecodeField(p).value])[..|done|] == done;
  }

  /** A new struct, and buf_d_struct into it. */
  method StructOfBytes(buf: array<Byte>, at: nat) returns (d: DStruct<Value>)
    requires at <= buf.Length && DecodeStruct(buf[at..]).Some?
    ensures fresh(d) && d.Table.Valid() && d.Map() == DecodeStruct(buf[at..]).value
    ensures d.currentLen == |Present(DecodeFields(buf[at..]).value)|
    ensures d.Valid() <==> DistinctKeys(Present(DecodeFields(buf[at..]).value))
  {
    hide Represents, NoDead, DecodeFields, Present, DistinctKeys, SetAll, HasNull, DecodeStruct;
    Readable(buf[at..]);
    NothingRead(buf[at..]);
    ghost var pairs := DecodeFields(buf[at..]).value;
    assert pairs[..|pairs|] == pairs;
    d := new DStruct<Value>((v: Value) => v.Simple?, ValueTag);
    var n := BufDStruct(buf, at, d);
  }

  lemma Readable(b: seq<Byte>)
    ensures DecodeStruct(b).Some? <==> DecodeFields(b).Some?
  {
    hide DecodeFields;
  }

  /** d_struct_to_drpc, then drpc_to_d_struct: the receiver's struct has the same
      fields, and its count is right. */
  method SendStruct(d: DStruct<Element>) returns (r: DStruct<Value>)
    requires d.Valid() && Packable(d.Map()) && |BytesOf(d.Table.body[..])| < TWO_64
    ensures fresh(r) && r.Valid() && r.Map() == map k | k in d.Map() :: Meaning(d.Map()[k])
  {
    hide Represents, BytesOf, WellFormed, Meaning, DecodeFields, DecodeStruct, Present, NoDead;
    var buf, _ := DStructBuf(d);
    PackedStructMeansItsMap(d.Table.body[..], d.Table.Map, d.Table.Where, []);
    assert BytesOf(d.Table.body[..]) + [] == buf[0..];
    r := StructOfBytes(buf, 0);
  }

  function ValueTag(v: Value): Byte {
    match v
    case Nothing => VOID
    case Simple(tag, _) => tag
    case Text(_) => STR
    case Buffer(_) => SIZEDBUF
    case Cells(_) => ARRAY
    case Record(_) => STRUCT
    case Items(_) => QUEUE
  }
}
