/** struct d_queue and struct d_array of drpc_queue.c and drpc_array.c: objects
    that are packed by walking over them in place. */
module Containers {
  import opened Bytes
  import opened Wrappers
  import opened HashTable
  import opened Wire
  import opened Codec
  import opened WireBuffers
  import opened DStructs
  import opened DStructBuffers

  // ---------- queues ----------

  class DQueue<V> {
    var que: seq<V>

    constructor ()
      ensures que == []
    {
      que := [];
    }

    method Push(element: V)
      modifies this
      ensures que == old(que) + [element]
    {
      que := que + [element];
    }

    /** None is the error return 1. An element of another type moves to the end; a
        null one is lost. */
    method Pop(tag: Byte, typeOf: V -> Byte, isNull: V -> bool) returns (value: Option<V>)
      modifies this
      ensures old(que) == [] ==> value.None? && que == []
      ensures old(que) != [] ==>
        var first, others := old(que)[0], old(que)[1..];
        if isNull(first) then value.None? && que == others
        else if typeOf(first) != tag then value.None? && que == others + [first]
        else value == Some(first) && que == others
    {
      if que == [] {
        return None;
      }
      var element := que[0];
      que := que[1..];
      if isNull(element) {
        return None;
      }
      if typeOf(element) != tag {
        que := que + [element];
        return None;
      }
      return Some(element);
    }
  }

  method MakeItem(e: Element) returns (p: Packet)
    requires WellFormed(e)
    ensures p == Wrapped([], e) && Sound(p)
  {
    hide EncodePacket, Inner, WellFormed;
    if e.Hole? {
      return Packet(VOID, []);
    }
    TagIsNotVoid(e);
    p := WrapPacket([], TagOf(e), Inner(e));
  }

  /** d_queue_buf takes every element out and puts it back behind the others:
      afterwards the queue is as it was. */
  method DQueueBuf(q: DQueue<Element>) returns (buf: array<Byte>, buflen: nat)
    requires forall i | 0 <= i < |q.que| :: WellFormed(q.que[i])
    modifies q
    ensures q.que == old(q.que)
    ensures fresh(buf) && buflen == buf.Length && buf[..] == EncodePackets(ItemPackets(q.que))
  {
    hide EncodePacket, WellFormed, Wrapped, Sound, EncodePackets;
    ghost var all := q.que;
    var length := |q.que|;
    var packed := [];
    for i := 0 to length
      invariant q.que == all[i..] + all[..i]
      invariant packed == ItemPackets(all[..i]) && forall j | 0 <= j < i :: Sound(packed[j])
    {
      Rotation(all, i);
      var element := q.que[0];
      q.que := q.que[1..];
      var p := MakeItem(element);
      packed := packed + [p];
      q.que := q.que + [element];
      assert all[..i + 1] == all[..i] + [element];
    }
    assert all[..length] == all;
    buflen := DrpcTypesBuflen(packed);
    buf := new Byte[buflen];
    DrpcTypesBuf(packed, buf);
    assert buf[..buflen] == buf[..];
  }

  /** buf_d_queue: void packets are skipped, the others pushed in order. */
  method BufDQueue(buf: array<Byte>, at: nat, q: DQueue<Value>)
    requires at <= buf.Length && DecodeItems(buf[at..]).Some?
    modifies q
    ensures q.que == old(q.que) + DropNothing(DecodeItems(buf[at..]).value)
  {
    hide DecodePackets, DecodeItem, DropNothing, DecodeItems;
    ghost var items := DecodeItems(buf[at..]).value;
    ghost var b := buf[at..];
    ItemsOfPackets(b);
    var types := BufDrpcTypes(buf, at);
    var ps := types[..];
    DropNone();
    for i := 0 to |ps|
      invariant q.que == old(q.que) + DropNothing(items[..i])
    {
      assert DecodeItem(ps[i]) == Some(items[i]);
      assert items[..i + 1] == items[..i] + [items[i]];
      DropLast(items[..i], items[i]);
      DecodedItem(ps[i]);
      if ps[i].tag == VOID {
        continue;
      }
      q.Push(DecodeValue(ps[i].tag, ps[i].payload).value);
    }
    assert items[..|items|] == items;
  }

  lemma DecodedItem(p: Packet)
    ensures p.tag == VOID ==> DecodeItem(p) == Some(Nothing)
    ensures p.tag != VOID ==> DecodeItem(p) == DecodeValue(p.tag, p.payload)
    ensures p.tag != VOID && DecodeItem(p).Some? ==> !DecodeItem(p).value.Nothing?
  {
    DecodesSomething(p.tag, p.payload);
  }

  lemma ItemsOfPackets(b: seq<Byte>)
    requires DecodeItems(b).Some?
    ensures DecodePackets(b).Some?
    ensures var ps := DecodePackets(b).value;
      |DecodeItems(b).value| == |ps| && forall i | 0 <= i < |ps| :: DecodeItem(ps[i]) == Some(DecodeItems(b).value[i])
  {
    hide DecodePackets, DecodeItem;
  }

  lemma DropNone()
    ensures DropNothing([]) == []
  {
  }

  lemma {:induction false} DropLast(values: seq<Value>, v: Value)
    ensures DropNothing(values + [v]) == DropNothing(values) + if v.Nothing? then [] else [v]
  {
    if |values| == 0 {
      assert values + [v] == [v] && [v][1..] == [];
    } else {
      assert (values + [v])[1..] == values[1..] + [v];
      DropLast(values[1..], v);
    }
  }

  // ---------- arrays ----------

  /** The occupied slots of a lookup table. */
  ghost function CellsOf<V>(table: seq<Option<V>>): (cells: map<nat, V>)
    ensures forall i :: i in cells <==> 0 <= i < |table| && table[i].Some?
    ensures forall i | i in cells :: cells[i] == table[i].value
  {
    map i: nat | i < |table| && table[i].Some? :: table[i].value
  }

  class DArray<V> {
    var table: array<Option<V>>
    var realSize: nat

    ghost function Cells(): map<nat, V>
      reads this, table
    {
      CellsOf(table[..])
    }

    constructor (startCapacity: nat)
      ensures fresh(table) && table.Length == (if startCapacity == 0 then 1 else startCapacity)
      ensures Cells() == map[] && realSize == 0
    {
      var size := if startCapacity == 0 then 1 else startCapacity;
      table := new Option<V>[size](_ => None);
      realSize := 0;
    }

    method GetInternal(index: nat) returns (value: Option<V>)
      ensures value == if index in Cells() then Some(Cells()[index]) else None
    {
      if index >= table.Length {
        return None;
      }
      value := table[index];
    }

    /** A table that is too short is grown to one and a half times what is needed;
        the new slots are empty. The count goes up even when the slot is occupied. */
    method SetInternal(index: nat, value: V)
      modifies this, table
      ensures Cells() == old(Cells())[index := value] && realSize == old(realSize) + 1
      ensures table == old(table) || fresh(table)
      ensures table.Length == if index < old(table.Length) then old(table.Length) else (index + 1) * 3 / 2
    {
      ghost var cells := Cells();
      if index >= table.Length {
        Grow((index + 1) * 3 / 2);
      }
      realSize := realSize + 1;
      table[index] := Some(value);
      assert Cells() == cells[index := value];
    }

    method Grow(size: nat)
      requires table.Length <= size
      modifies this`table
      ensures fresh(table) && table.Length == size && Cells() == old(Cells())
    {
      var grown := new Option<V>[size](_ => None);
      for i := 0 to table.Length
        invariant table == old(table) && i <= table.Length
        invariant forall j | 0 <= j < size :: grown[j] == if j < i then table[j] else None
      {
        grown[i] := table[i];
      }
      ghost var cells := Cells();
      table := grown;
      assert Cells() == cells;
    }

    method DelInternal(index: nat)
      modifies this, table
      ensures Cells() == old(Cells()) - {index} && table == old(table)
      ensures realSize == if index in old(Cells()) && old(realSize) > 0 then old(realSize) - 1 else old(realSize)
    {
      ghost var cells := Cells();
      if index >= table.Length || table[index].None? {
        assert cells - {index} == cells;
        return;
      }
      if realSize > 0 {
        realSize := realSize - 1;
      }
      table[index] := None;
      assert Cells() == cells - {index};
    }
  }

  /** The length that a set leaves is right exactly when the slot was empty. */
  lemma LengthAfterSet<V>(cells: map<nat, V>, realSize: nat, index: nat, value: V)
    requires realSize == |cells|
    ensures realSize + 1 == |cells[index := value]| <==> index !in cells
  {
    if index in cells {
      assert cells[index := value].Keys == cells.Keys;
    } else {
      assert cells[index := value].Keys == cells.Keys + {index};
    }
  }

  // ---------- packing an array ----------

  /** The struct that d_array_buf builds of the first n slots. */
  ghost predicate Keyed<V>(m: map<Key, V>, table: seq<Option<V>>, n: nat) {
    && n <= |table|
    && (forall i | 0 <= i < n && table[i].Some? :: Decimal(i) in m && m[Decimal(i)] == table[i].value)
    && (forall k | k in m :: Atol(k) < n && table[Atol(k)].Some? && k == Decimal(Atol(k)))
  }

  lemma KeyedMore<V>(m: map<Key, V>, table: seq<Option<V>>, n: nat)
    requires Keyed(m, table, n) && n < |table| < TWO_63
    ensures table[n].None? ==> Keyed(m, table, n + 1)
    ensures Decimal(n) !in m
    ensures table[n].Some? ==> Keyed(m[Decimal(n) := table[n].value], table, n + 1)
  {
    hide Decimal, Atol;
    DecimalRoundTrip(n);
    forall i | 0 <= i < n ensures Decimal(i) != Decimal(n) {
      DecimalRoundTrip(i);
    }
  }

  /** The temporary struct of d_array_buf. */
  method KeyedStruct(d: DArray<Element>) returns (packed: DStruct<Element>)
    requires d.table.Length < TWO_63
    ensures fresh(packed) && packed.Valid() && Keyed(packed.Map(), d.table[..], d.table.Length)
  {
    hide Keyed, Decimal, Represents, NoDead, HasNull;
    packed := new DStruct<Element>((e: Element) => e.Packed?, TagOf);
    ghost var table := d.table[..];
    NothingKeyed(table);
    for i := 0 to d.table.Length
      invariant fresh(packed) && fresh(packed.Table) && fresh(packed.Table.body)
      invariant packed.Valid() && NoDead(packed.Table.body[..]) && Keyed(packed.Map(), table, i)
    {
      KeyedMore(packed.Map(), table, i);
      if d.table[i].None? {
        continue;
      }
      RoomLeft(packed.Table.body[..], packed.Table.Map, packed.Table.Where);
      var key := Decimal(i);
      packed.Table.SetUnlocked(key, d.table[i].value);
      packed.currentLen := packed.currentLen + 1;
      packed.heapKeys := packed.heapKeys + [key];
    }
  }

  lemma NothingKeyed<V>(table: seq<Option<V>>)
    ensures Keyed(map[], table, 0)
  {
  }

  ghost function CellsOfEntries(entries: seq<(Key, Element)>): seq<Cell> {
    seq(|entries|, x requires 0 <= x < |entries| => Cell(Atol(entries[x].0), entries[x].1))
  }

  /** The cells are those of the table, each once, in some order. */
  ghost predicate InSomeOrder(cells: seq<Cell>, m: map<nat, Element>) {
    && |cells| == |m|
    && (forall x | 0 <= x < |cells| :: cells[x].index in m && m[cells[x].index] == cells[x].element)
    && (forall i | i in m :: exists x :: 0 <= x < |cells| && cells[x].index == i)
    && (forall x, y | 0 <= x < y < |cells| :: cells[x].index != cells[y].index)
  }

  lemma KeyedEntry(entries: seq<(Key, Element)>, m: map<Key, Element>, table: seq<Option<Element>>, x: nat)
    requires Keyed(m, table, |table|) && x < |entries|
    requires forall k, v :: (k, v) in entries <==> k in m && m[k] == v
    ensures entries[x].0 == Decimal(Atol(entries[x].0))
    ensures Atol(entries[x].0) in CellsOf(table) && CellsOf(table)[Atol(entries[x].0)] == entries[x].1
  {
    hide Decimal, Atol;
    var (k, v) := entries[x];
    assert (k, v) in entries;
  }

  lemma KeyedCell(entries: seq<(Key, Element)>, m: map<Key, Element>, table: seq<Option<Element>>, i: nat)
    returns (x: nat)
    requires Keyed(m, table, |table|) && |table| < TWO_63 && i in CellsOf(table)
    requires forall k, v :: (k, v) in entries <==> k in m && m[k] == v
    ensures x < |entries| && Atol(entries[x].0) == i
  {
    hide Decimal, Atol;
    DecimalRoundTrip(i);
    assert (Decimal(i), table[i].value) in entries;
    x :| 0 <= x < |entries| && entries[x] == (Decimal(i), table[i].value);
  }

  lemma KeyedEntries(entries: seq<(Key, Element)>, m: map<Key, Element>, table: seq<Option<Element>>)
    requires Keyed(m, table, |table|) && |table| < TWO_63
    requires forall k, v :: (k, v) in entries <==> k in m && m[k] == v
    requires forall x, y | 0 <= x < y < |entries| :: entries[x].0 != entries[y].0
    ensures InSomeOrder(CellsOfEntries(entries), CellsOf(table))
    ensures AsFields(CellsOfEntries(entries)) == FieldsOf(entries)
  {
    hide Decimal, Atol, Keyed, CellsOf, InSomeOrder, CellsOfEntries, FieldsOf, AsFields;
    forall x | 0 <= x < |entries|
      ensures entries[x].0 == Decimal(Atol(entries[x].0))
      ensures Atol(entries[x].0) in CellsOf(table) && CellsOf(table)[Atol(entries[x].0)] == entries[x].1
    {
      KeyedEntry(entries, m, table, x);
    }
    forall i | i in CellsOf(table) ensures exists x :: 0 <= x < |entries| && Atol(entries[x].0) == i {
      var x := KeyedCell(entries, m, table, i);
    }
    EntriesInOrder(entries, CellsOf(table));
  }

  lemma EntriesInOrder(entries: seq<(Key, Element)>, m: map<nat, Element>)
    requires forall x | 0 <= x < |entries| :: entries[x].0 == Decimal(Atol(entries[x].0))
    requires forall x | 0 <= x < |entries| :: Atol(entries[x].0) in m && m[Atol(entries[x].0)] == entries[x].1
    requires forall i | i in m :: exists x :: 0 <= x < |entries| && Atol(entries[x].0) == i
    requires forall x, y | 0 <= x < y < |entries| :: entries[x].0 != entries[y].0
    ensures InSomeOrder(CellsOfEntries(entries), m)
    ensures AsFields(CellsOfEntries(entries)) == FieldsOf(entries)
  {
    hide Decimal, Atol;
    EntriesAsFields(entries);
    hide AsFields, FieldsOf;
    var cells := CellsOfEntries(entries);
    forall i | i in m ensures exists x :: 0 <= x < |cells| && cells[x].index == i {
      var x :| 0 <= x < |entries| && Atol(entries[x].0) == i;
      assert cells[x].index == i;
    }
    forall x, y | 0 <= x < y < |cells| ensures cells[x].index != cells[y].index {
      assert entries[x].0 != entries[y].0;
    }
    SameSize(cells, m);
  }

  lemma EntriesAsFields(entries: seq<(Key, Element)>)
    requires forall x | 0 <= x < |entries| :: entries[x].0 == Decimal(Atol(entries[x].0))
    ensures AsFields(CellsOfEntries(entries)) == FieldsOf(entries)
  {
    hide Decimal, Atol;
  }

  lemma {:induction false} SameSize(cells: seq<Cell>, m: map<nat, Element>)
    requires forall x | 0 <= x < |cells| :: cells[x].index in m
    requires forall i | i in m :: exists x :: 0 <= x < |cells| && cells[x].index == i
    requires forall x, y | 0 <= x < y < |cells| :: cells[x].index != cells[y].index
    ensures |cells| == |m|
  {
    if |cells| > 0 {
      var n := |cells| - 1;
      var rest := m - {cells[n].index};
      assert rest.Keys == m.Keys - {cells[n].index};
      forall i | i in rest ensures exists x :: 0 <= x < n && cells[..n][x].index == i {
        var x :| 0 <= x < |cells| && cells[x].index == i;
        assert cells[..n][x].index == i;
      }
      SameSize(cells[..n], rest);
    } else {
      assert m.Keys == {};
    }
  }

  /** d_array_buf: the payload is that of an array of the same cells. */
  method DArrayBuf(d: DArray<Element>) returns (buf: array<Byte>, buflen: nat, ghost cells: seq<Cell>)
    requires d.table.Length < TWO_63
    requires forall i | i in d.Cells() :: !d.Cells()[i].Hole? && WellFormed(d.Cells()[i])
    ensures fresh(buf) && buflen == buf.Length && buf[..] == Inner(Array(cells)).payload
    ensures InSomeOrder(cells, d.Cells()) && WellFormed(Array(cells))
  {
    hide Represents, BytesOf, WellFormed, Keyed, EntriesOf, PacketsOf, EncodePackets, FieldPackets;
    ghost var table := d.table[..];
    assert d.Cells() == CellsOf(table);
    var packed := KeyedStruct(d);
    assert d.table[..] == table;
    KeyedPackable(packed.Map(), table);
    buf, buflen := DStructBuf(packed);
    ghost var b := packed.Table.body[..];
    AllEntries(b, packed.Table.Map, packed.Table.Where);
    KeyedEntries(EntriesOf(b), packed.Map(), d.table[..]);
    cells := CellsOfEntries(EntriesOf(b));
    InnerPackets(Array(cells));
    BytesOfCells(b, cells);
    CellsWellFormed(cells, d.Cells());
  }

  lemma KeyedPackable(m: map<Key, Element>, table: seq<Option<Element>>)
    requires Keyed(m, table, |table|)
    requires forall i | i in CellsOf(table) :: !CellsOf(table)[i].Hole? && WellFormed(CellsOf(table)[i])
    ensures Packable(m)
  {
    hide Decimal, Atol, WellFormed;
    forall k | k in m ensures NoNul(k) && !m[k].Hole? && WellFormed(m[k]) {
      DecimalRoundTrip(Atol(k));
      assert Atol(k) in CellsOf(table);
    }
  }

  lemma BytesOfCells(b: seq<Entry<Element>>, cells: seq<Cell>)
    requires AsFields(cells) == FieldsOf(EntriesOf(b))
    ensures BytesOf(b) == EncodePackets(FieldPackets(AsFields(cells)))
  {
    hide EncodePackets, FieldPackets;
  }

  lemma CellsWellFormed(cells: seq<Cell>, m: map<nat, Element>)
    requires InSomeOrder(cells, m) && forall i | i in m :: i < TWO_63 && !m[i].Hole? && WellFormed(m[i])
    ensures WellFormed(Array(cells))
  {
  }

  function CellPairs(cells: seq<Cell>): seq<(nat, Value)> {
    seq(|cells|, x requires 0 <= x < |cells| => (cells[x].index, Meaning(cells[x].element)))
  }

  function MeaningOfAll(m: map<nat, Element>): map<nat, Value> {
    map i | i in m :: Meaning(m[i])
  }

  lemma CellPair(cells: seq<Cell>, m: map<nat, Element>, x: nat)
    requires InSomeOrder(cells, m) && x < |cells| && forall i | i in m :: !m[i].Hole?
    ensures var (i, v) := CellPairs(cells)[x]; !v.Nothing? && i in m && v == MeaningOfAll(m)[i]
  {
    hide Meaning;
    MeansSomething(cells[x].element);
  }

  lemma CellPairsDistinct(cells: seq<Cell>, m: map<nat, Element>)
    requires InSomeOrder(cells, m)
    ensures DistinctKeys(CellPairs(cells)) && |CellPairs(cells)| == |cells| == |MeaningOfAll(m)|
    ensures Meaning(Array(cells)) == Cells(SetAll(CellPairs(cells)))
  {
    hide SetAll;
    assert MeaningOfAll(m).Keys == m.Keys;
  }

  /** What a packed array means does not depend on the order of its cells. */
  lemma ArrayMeaning(cells: seq<Cell>, m: map<nat, Element>)
    requires InSomeOrder(cells, m) && forall i | i in m :: !m[i].Hole?
    ensures Meaning(Array(cells)) == Cells(MeaningOfAll(m))
  {
    hide Meaning, SetAll, InSomeOrder, CellPairs, DistinctKeys;
    CellPairsDistinct(cells, m);
    var pairs := CellPairs(cells);
    forall x | 0 <= x < |pairs|
      ensures !pairs[x].1.Nothing? && pairs[x].0 in MeaningOfAll(m) && MeaningOfAll(m)[pairs[x].0] == pairs[x].1
    {
      CellPair(cells, m, x);
    }
    SetAllIs(pairs, MeaningOfAll(m));
  }

  // ---------- unpacking an array ----------

  /** No two keys read as the same index. */
  ghost predicate DistinctIndices<V>(m: map<Key, V>) {
    forall k, l | k in m && l in m :: Atol(k) == Atol(l) ==> k == l
  }

  /** The cells are the fields, each at the index that its key reads as; of several
      for one index there is one. */
  ghost predicate Reindexed<V>(cells: map<nat, V>, m: map<Key, V>) {
    && (forall k | k in m :: Atol(k) in cells)
    && (forall i | i in cells :: exists k :: k in m && Atol(k) == i && cells[i] == m[k])
  }

  lemma {:induction false} SetAllReindexed(pairs: seq<(Chars, Value)>)
    ensures Reindexed(SetAll(Indexed(pairs)), SetAll(pairs))
  {
    hide Atol, Reindexed;
    if |pairs| > 0 {
      var n := |pairs| - 1;
      SetAllReindexed(pairs[..n]);
      assert Indexed(pairs)[..n] == Indexed(pairs[..n]);
      var (key, value) := pairs[n];
      if !value.Nothing? {
        OneMoreReindexed(SetAll(Indexed(pairs[..n])), SetAll(pairs[..n]), key, value);
      }
    } else {
      NoneReindexed<Value>();
    }
  }

  lemma NoneReindexed<V>()
    ensures Reindexed<V>(map[], map[])
  {
  }

  lemma OneMoreReindexed<V>(cells: map<nat, V>, m: map<Key, V>, key: Key, value: V)
    requires Reindexed(cells, m)
    ensures Reindexed(cells[Atol(key) := value], m[key := value])
  {
    hide Atol;
    var now := m[key := value];
    var more := cells[Atol(key) := value];
    forall i | i in more ensures exists k :: k in now && Atol(k) == i && more[i] == now[k]
    {
      if i == Atol(key) {
        assert now[key] == value;
      } else {
        var k :| k in m && Atol(k) == i && cells[i] == m[k];
        assert now[k] == m[k];
      }
    }
  }

  lemma SameCells<V>(a: map<nat, V>, b: map<nat, V>, m: map<Key, V>)
    requires Reindexed(a, m) && Reindexed(b, m) && DistinctIndices(m)
    ensures a == b
  {
    hide Atol;
  }

  function Indices(keys: set<Key>): set<nat> {
    set k | k in keys :: Atol(k)
  }

  ghost predicate OneToOne(keys: set<Key>) {
    forall k, l | k in keys && l in keys :: Atol(k) == Atol(l) ==> k == l
  }

  lemma IndicesWith(keys: set<Key>, key: Key)
    requires key !in keys
    ensures Indices(keys + {key}) == Indices(keys) + {Atol(key)}
    ensures OneToOne(keys + {key}) <==> OneToOne(keys) && Atol(key) !in Indices(keys)
  {
    hide Atol;
    if OneToOne(keys) && Atol(key) !in Indices(keys) {
      forall k, l | k in keys + {key} && l in keys + {key} && Atol(k) == Atol(l) ensures k == l {
        assert k in keys ==> Atol(k) in Indices(keys);
        assert l in keys ==> Atol(l) in Indices(keys);
      }
    }
  }

  lemma {:induction false} IndicesOf(keys: set<Key>)
    ensures |Indices(keys)| <= |keys|
    ensures |Indices(keys)| == |keys| <==> OneToOne(keys)
  {
    if keys != {} {
      var key :| key in keys;
      var rest := keys - {key};
      assert rest + {key} == keys;
      IndicesOf(rest);
      IndicesWith(rest, key);
      hide Indices, OneToOne, Atol;
      if Atol(key) in Indices(rest) {
        assert Indices(rest) + {Atol(key)} == Indices(rest);
      }
    }
  }

  /** There are as many cells as fields if and only if no two keys read as one index. */
  lemma LengthIsRight<V>(cells: map<nat, V>, m: map<Key, V>)
    requires Reindexed(cells, m)
    ensures |cells| == |m| <==> DistinctIndices(m)
  {
    hide Atol;
    IndicesOf(m.Keys);
    forall i | i in cells ensures i in Indices(m.Keys) {
      var k :| k in m && Atol(k) == i && cells[i] == m[k];
      assert k in m.Keys;
    }
    assert cells.Keys == Indices(m.Keys);
    assert DistinctIndices(m) <==> OneToOne(m.Keys);
  }

  /** The cells of the first n keys. */
  ghost predicate ReindexedTo<V>(cells: map<nat, V>, m: map<Key, V>, keys: seq<Key>, n: nat) {
    && n <= |keys| && (forall x | 0 <= x < n :: keys[x] in m && Atol(keys[x]) in cells)
    && (forall i | i in cells :: exists x :: 0 <= x < n && Atol(keys[x]) == i && keys[x] in m && cells[i] == m[keys[x]])
  }

  /** buf_d_array: a struct is unpacked, and its fields become cells. It fails, at a
      null key, if and only if a key comes twice. Otherwise the length is right if and
      only if no two keys read as one index. */
  method BufDArray(buf: array<Byte>, at: nat) returns (ok: bool, d: DArray<Value>)
    requires at <= buf.Length && DecodeStruct(buf[at..]).Some?
    ensures fresh(d) && fresh(d.table)
    ensures ok <==> DistinctKeys(Present(DecodeFields(buf[at..]).value))
    ensures ok ==> Reindexed(d.Cells(), DecodeStruct(buf[at..]).value)
    ensures ok ==> d.realSize == |DecodeStruct(buf[at..]).value|
    ensures ok ==> (d.realSize == |d.Cells()| <==> DistinctIndices(DecodeStruct(buf[at..]).value))
  {
    hide Atol, Represents, DecodeFields, Present, DistinctKeys, ReindexedTo, EntriesOf, DecodeStruct, Reindexed,
         DistinctIndices, CellsOf, KeysOf;
    ghost var m := DecodeStruct(buf[at..]).value;
    var packed := StructOfBytes(buf, at);
    EnoughCounted(buf[at..]);
    var keys := packed.GetFields();
    ghost var live := KeysOf(EntriesOf(packed.Table.body[..]));
    d := new DArray<Value>(keys.Length);
    ok := LoadCells(packed, keys[..], d, m, live);
    if ok {
      LengthIsRight(d.Cells(), m);
    }
  }

  lemma EnoughCounted(b: seq<Byte>)
    requires DecodeStruct(b).Some?
    ensures DecodeFields(b).Some? && |DecodeStruct(b).value| <= |Present(DecodeFields(b).value)|
  {
    hide DecodeFields;
    SetAllPresent(DecodeFields(b).value);
    SetAllSize(Present(DecodeFields(b).value));
  }

  method LoadCells(packed: DStruct<Value>, keys: seq<Option<Key>>, d: DArray<Value>,
                   ghost m: map<Key, Value>, ghost live: seq<Key>)
    returns (ok: bool)
    requires packed.Table.Valid() && packed.Map() == m
    requires |live| == |m| <= |keys| && forall k :: k in live <==> k in m
    requires forall j | 0 <= j < |keys| :: keys[j] == if j < |live| then Some(live[j]) else None
    requires d.Cells() == map[] && d.realSize == 0
    modifies d, d.table
    ensures d.table == old(d.table) || fresh(d.table)
    ensures ok <==> |keys| == |m|
    ensures ok ==> Reindexed(d.Cells(), m) && d.realSize == |m|
  {
    hide Atol, Represents, NoDead, ReindexedTo, HasNull, CellsOf, Reindexed;
    NothingReindexed(m, live);
    for i := 0 to |keys|
      invariant i <= |live| && d.realSize == i && (d.table == old(d.table) || fresh(d.table))
      invariant packed.Table.Valid() && packed.Map() == m && ReindexedTo(d.Cells(), m, live, i)
    {
      if keys[i].None? {
        return false;
      }
      var key := keys[i].value;
      assert live[i] in live;
      var value := packed.Table.Get(key);
      OneMoreCell(d.Cells(), m, live, i);
      d.SetInternal(Atol(key), value.value);
    }
    AllCells(d.Cells(), m, live);
    ok := true;
  }

  lemma NothingReindexed<V>(m: map<Key, V>, keys: seq<Key>)
    ensures ReindexedTo(map[], m, keys, 0)
  {
  }

  lemma OneMoreCell<V>(cells: map<nat, V>, m: map<Key, V>, keys: seq<Key>, n: nat)
    requires ReindexedTo(cells, m, keys, n) && n < |keys| && keys[n] in m
    ensures ReindexedTo(cells[Atol(keys[n]) := m[keys[n]]], m, keys, n + 1)
  {
    hide Atol;
    var now := cells[Atol(keys[n]) := m[keys[n]]];
    forall i | i in now
      ensures exists x :: 0 <= x < n + 1 && Atol(keys[x]) == i && keys[x] in m && now[i] == m[keys[x]]
    {
      if i == Atol(keys[n]) {
        assert now[i] == m[keys[n]];
      }
    }
  }

  lemma AllCells<V>(cells: map<nat, V>, m: map<Key, V>, keys: seq<Key>)
    requires ReindexedTo(cells, m, keys, |keys|) && forall k :: k in keys <==> k in m
    ensures Reindexed(cells, m)
  {
    hide Atol;
  }

  lemma CellsReadBack(cells: seq<Cell>, rest: seq<Byte>)
    requires WellFormed(Array(cells)) && Fits(Array(cells))
    ensures DecodeFields(Inner(Array(cells)).payload + rest) == Some(Pairs(AsFields(cells)))
    ensures Indexed(Pairs(AsFields(cells))) == CellPairs(cells)
  {
    hide Decimal, Atol, EncodePackets, FieldPackets, Meaning, DecodeFields;
    InnerPackets(Array(cells));
    var fields := AsFields(cells);
    forall x | 0 <= x < |fields|
      ensures NoNul(fields[x].key) && Atol(fields[x].key) == cells[x].index
    {
      DecimalRoundTrip(cells[x].index);
    }
    FieldsWellFormed(fields);
    InnerPackets(Struct(fields));
    FieldsRoundTrip(Struct(fields), rest);
  }

  lemma CellKeysDistinct(cells: seq<Cell>)
    requires WellFormed(Array(cells)) && forall x, y | 0 <= x < y < |cells| :: cells[x].index != cells[y].index
    ensures var pairs := Pairs(AsFields(cells));
      && DistinctKeys(pairs) && Present(pairs) == pairs && DistinctIndices(SetAll(pairs))
      && |SetAll(pairs)| == |cells| == |SetAll(CellPairs(cells))|
  {
    hide Decimal, Atol, Meaning, SetAll;
    var pairs := Pairs(AsFields(cells));
    forall x | 0 <= x < |pairs|
      ensures Atol(pairs[x].0) == cells[x].index && pairs[x].0 == Decimal(cells[x].index) && !pairs[x].1.Nothing?
    {
      DecimalRoundTrip(cells[x].index);
      MeansSomething(cells[x].element);
    }
    AllPresent(pairs);
    forall x | 0 <= x < |cells| ensures !CellPairs(cells)[x].1.Nothing? {
      MeansSomething(cells[x].element);
    }
    SetAllIsThePairs(pairs);
    SetAllIsThePairs(CellPairs(cells));
    forall k | k in SetAll(pairs) ensures k == Decimal(Atol(k)) {
      KeyComesFrom(pairs, k);
    }
  }

  /** d_array_to_drpc, then drpc_to_d_array: the same cells, and the right length. */
  method SendArray(d: DArray<Element>) returns (r: DArray<Value>)
    requires d.table.Length < TWO_63
    requires forall i | i in d.Cells() :: !d.Cells()[i].Hole? && WellFormed(d.Cells()[i])
    requires forall cells | InSomeOrder(cells, d.Cells()) :: Fits(Array(cells))
    ensures fresh(r) && r.Cells() == MeaningOfAll(d.Cells()) && r.realSize == |r.Cells()|
  {
    hide InSomeOrder, WellFormed, Fits, DecodeFields, SetAll, Present, DistinctKeys, DistinctIndices, Inner,
         MeaningOfAll, CellPairs, Reindexed, CellsOf;
    ghost var m := d.Cells();
    var buf, buflen;
    ghost var cells;
    buf, buflen, cells := DArrayBuf(d);
    ghost var pairs := Pairs(AsFields(cells));
    CellsReadBack(cells, []);
    assert buf[0..] == Inner(Array(cells)).payload + [];
    OrderedAreDistinct(cells, m);
    CellKeysDistinct(cells);
    var ok;
    ok, r := BufDArray(buf, 0);
    SetAllReindexed(pairs);
    SameCells(r.Cells(), SetAll(CellPairs(cells)), SetAll(pairs));
    ArrayMeaning(cells, m);
    CellPairsDistinct(cells, m);
  }

  lemma OrderedAreDistinct(cells: seq<Cell>, m: map<nat, Element>)
    requires InSomeOrder(cells, m)
    ensures forall x, y | 0 <= x < y < |cells| :: cells[x].index != cells[y].index
  {
  }
}
