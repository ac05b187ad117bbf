/** d_struct_buf, d_queue_buf and d_array_buf on values on the heap, which call one
    another: containers inside containers are objects, and a queue anywhere inside
    is rotated while it is packed. */
module Packing {
  import opened Bytes
  import opened Wrappers
  import opened Wire
  import opened Codec
  import opened WireBuffers
  import opened DStructBuffers
  import opened Containers
  import opened DeepCopy

  // ---------- what the bytes are ----------

  /** A layout of the tree: its value with the fields of each table in some order and
      a hole for each null entry of a queue. */
  ghost predicate IsLayout(l: Element, t: Tree)
    decreases t
  {
    match t.body
    case PackedBody(_, _, packet) => l == Packed(t.tag, packet)
    case StrBody(_, text) => l == Str(text)
    case SizedBody(_, content) => l == SizedBuf(content)
    case StructBody(_, _, fields) =>
      && l.Struct? && |l.fields| == |fields| && DistinctFields(l.fields)
      && forall x | 0 <= x < |l.fields| ::
           l.fields[x].key in fields && IsLayout(l.fields[x].element, fields[l.fields[x].key])
    case QueueBody(_, items) =>
      && l.Queue? && |l.items| == |items|
      && forall i | 0 <= i < |items| :: IsEntryLayout(l.items[i], items[i])
    case ArrayBody(_, _, _, cells) =>
      && l.Array? && |l.cells| == |cells| && DistinctCells(l.cells)
      && forall x | 0 <= x < |l.cells| ::
           l.cells[x].index in cells && IsLayout(l.cells[x].element, cells[l.cells[x].index])
  }

  /** The layout of an entry; that of a null one is a hole. */
  ghost predicate IsEntryLayout(l: Element, item: Option<Tree>)
    decreases item
  {
    if item.Some? then IsLayout(l, item.value) else l.Hole?
  }

  predicate DistinctCells(cells: seq<Cell>) {
    forall x, y | 0 <= x < y < |cells| :: cells[x].index != cells[y].index
  }

  /** What the set and push functions keep; the count of a struct is the number of
      packets that there is room for. */
  predicate PackableTree(t: Tree) {
    TagFits(t.tag, t.body) &&
    match t.body
    case PackedBody(_, _, packet) => t.tag != VOID && Sound(packet)
    case StrBody(_, text) => NoNul(text)
    case SizedBody(_, _) => true
    case StructBody(_, count, fields) =>
      count == |fields| && forall k | k in fields :: NoNul(k) && PackableTree(fields[k])
    case QueueBody(_, items) => forall i | 0 <= i < |items| && items[i].Some? :: PackableTree(items[i].value)
    case ArrayBody(_, _, _, cells) => forall i | i in cells :: i < TWO_63 && PackableTree(cells[i])
  }

  /** A layout can be packed, and its meaning is the value on the heap. */
  lemma {:induction false} LayoutMeans(l: Element, t: Tree)
    requires IsLayout(l, t) && PackableTree(t)
    ensures !l.Hole? && WellFormed(l) && TagOf(l) == t.tag && Meaning(l) == Content(t)
    decreases t
  {
    match t.body
    case PackedBody(_, _, _) =>
    case StrBody(_, _) =>
    case SizedBody(_, _) =>
    case StructBody(_, _, fields) => StructLayoutMeans(l, t);
    case QueueBody(_, items) =>
      forall i | 0 <= i < |items|
        ensures WellFormed(l.items[i]) && Meaning(l.items[i]) == EntryValues(items)[i]
      {
        if items[i].Some? {
          LayoutMeans(l.items[i], items[i].value);
        }
      }
      assert seq(|items|, i requires 0 <= i < |items| => Meaning(l.items[i])) == EntryValues(items);
    case ArrayBody(_, _, _, cells) => ArrayLayoutMeans(l, t);
  }

  // ---------- layouts and their meaning ----------

  /** The fields on the wire are layouts of those of the table, each once. */
  ghost predicate LaidFields(laid: seq<Field>, fields: map<Chars, Tree>) {
    && DistinctFields(laid)
    && forall x | 0 <= x < |laid| :: laid[x].key in fields && IsLayout(laid[x].element, fields[laid[x].key])
  }

  lemma StructLayoutMeans(l: Element, t: Tree)
    requires IsLayout(l, t) && PackableTree(t) && t.body.StructBody?
    ensures l.Struct? && WellFormed(l) && Meaning(l) == Content(t)
    decreases t, 0
  {
    var fields := t.body.fields;
    forall x | 0 <= x < |l.fields|
      ensures NoNul(l.fields[x].key) && !l.fields[x].element.Hole? && WellFormed(l.fields[x].element)
      ensures Meaning(l.fields[x].element) == Content(fields[l.fields[x].key])
    {
      LayoutMeans(l.fields[x].element, fields[l.fields[x].key]);
    }
    FieldsWellFormed(l.fields);
    FieldsMean(l.fields, fields);
  }

  lemma FieldsMean(laid: seq<Field>, fields: map<Chars, Tree>)
    requires DistinctFields(laid) && |laid| == |fields|
    requires forall x | 0 <= x < |laid| ::
      !laid[x].element.Hole? && laid[x].key in fields && Meaning(laid[x].element) == Content(fields[laid[x].key])
    ensures Meaning(Struct(laid)) == Record(Contents(fields))
  {
    hide Content, Meaning, SetAll;
    StructMeaning(laid);
    var pairs := Pairs(laid);
    forall x | 0 <= x < |pairs| ensures !pairs[x].1.Nothing? {
      MeansSomething(laid[x].element);
    }
    SetAllIs(pairs, Contents(fields));
  }

  lemma StructMeaning(laid: seq<Field>)
    ensures Meaning(Struct(laid)) == Record(SetAll(Pairs(laid)))
  {
    hide SetAll;
    assert Pairs(laid) == seq(|laid|, i requires 0 <= i < |laid| => (laid[i].key, Meaning(laid[i].element)));
  }

  lemma ArrayLayoutMeans(l: Element, t: Tree)
    requires IsLayout(l, t) && PackableTree(t) && t.body.ArrayBody?
    ensures l.Array? && WellFormed(l) && Meaning(l) == Content(t)
    decreases t, 0
  {
    var cells := t.body.cells;
    forall x | 0 <= x < |l.cells|
      ensures l.cells[x].index < TWO_63 && !l.cells[x].element.Hole? && WellFormed(l.cells[x].element)
      ensures Meaning(l.cells[x].element) == Content(cells[l.cells[x].index])
    {
      LayoutMeans(l.cells[x].element, cells[l.cells[x].index]);
    }
    CellsMean(l.cells, cells);
  }

  lemma CellsMean(laid: seq<Cell>, cells: map<nat, Tree>)
    requires DistinctCells(laid) && |laid| == |cells|
    requires forall x | 0 <= x < |laid| ::
      !laid[x].element.Hole? && laid[x].index in cells && Meaning(laid[x].element) == Content(cells[laid[x].index])
    ensures Meaning(Array(laid)) == Cells(Contents<nat>(cells))
  {
    hide Content, Meaning, SetAll;
    ArrayPairs(laid);
    var pairs := CellPairs(laid);
    forall x | 0 <= x < |pairs| ensures !pairs[x].1.Nothing? {
      MeansSomething(laid[x].element);
    }
    SetAllIs<nat>(pairs, Contents<nat>(cells));
  }

  lemma ArrayPairs(laid: seq<Cell>)
    ensures Meaning(Array(laid)) == Cells(SetAll(CellPairs(laid)))
  {
    hide SetAll;
  }

  /** A reader gets the value on the heap back from the bytes of any layout. */
  lemma PackedTreeIsRead(l: Element, t: Tree, rest: seq<Byte>)
    requires IsLayout(l, t) && PackableTree(t) && Fits(l)
    ensures DecodeValue(t.tag, EncodePacket(Inner(l)) + rest) == Some(Content(t))
  {
    LayoutMeans(l, t);
    RoundTrip(l, rest);
  }

  // ---------- the buffers of the containers ----------

  /** t is a part of the body b. */
  ghost predicate Under(t: Tree, b: Body) {
    match b
    case StructBody(_, _, fields) => exists k :: k in fields && fields[k] == t
    case QueueBody(_, items) => Some(t) in items
    case ArrayBody(_, _, _, cells) => exists i :: i in cells && cells[i] == t
    case _ => false
  }

  /** drpc_types_buf into a buffer of the length that drpc_types_buflen gives. */
  method ListBuffer(packed: seq<Packet>) returns (buf: array<Byte>)
    requires forall i | 0 <= i < |packed| :: Sound(packed[i])
    ensures fresh(buf) && buf[..] == EncodePackets(packed)
  {
    hide Sound, EncodePackets;
    var buflen := DrpcTypesBuflen(packed);
    buf := new Byte[buflen];
    DrpcTypesBuf(packed, buf);
    assert buf[..buflen] == buf[..];
  }

  lemma LayoutIsSound(l: Element, t: Tree)
    requires IsLayout(l, t) && PackableTree(t)
    ensures !l.Hole? && TagOf(l) == t.tag && t.tag != VOID && Sound(Inner(l))
  {
    LayoutMeans(l, t);
    hide Meaning, Content;
    TagIsNotVoid(l);
  }

  /** An element packed for its container. */
  method PackWrapped(key: seq<Byte>, e: ElementObject, ghost t: Tree) returns (w: Packet, ghost l: Element)
    requires t.node == e && Holds(t) && PackableTree(t)
    modifies t.objects
    ensures unchanged(t.objects)
    ensures IsLayout(l, t) && w == Wrapped(key, l) && Sound(w)
    decreases t, 2
  {
    hide IsLayout, PackableTree, Inner, EncodePacket, BodyHolds;
    var p;
    p, l := PackElement(e, t);
    LayoutIsSound(l, t);
    w := WrapPacket(key, e.tag, p);
  }

  /** The first n items have been laid out, with their packets. */
  ghost predicate LaidItems(laid: seq<Element>, packed: seq<Packet>, items: seq<Option<Tree>>, n: nat) {
    && |laid| == n <= |items| && packed == ItemPackets(laid)
    && forall j | 0 <= j < n :: IsEntryLayout(laid[j], items[j]) && Sound(packed[j])
  }

  lemma NoItems(items: seq<Option<Tree>>)
    ensures LaidItems([], [], items, 0)
  {
  }

  lemma LaidItem(laid: seq<Element>, packed: seq<Packet>, items: seq<Option<Tree>>, n: nat, l: Element)
    requires LaidItems(laid, packed, items, n) && n < |items|
    requires IsEntryLayout(l, items[n]) && Sound(Wrapped([], l))
    ensures LaidItems(laid + [l], packed + [Wrapped([], l)], items, n + 1)
  {
    hide IsEntryLayout, Wrapped, Sound;
  }

  method QueueBuffer(packed: seq<Packet>, ghost laid: seq<Element>, ghost items: seq<Option<Tree>>)
    returns (buf: array<Byte>)
    requires LaidItems(laid, packed, items, |items|)
    ensures fresh(buf) && buf[..] == EncodePackets(ItemPackets(laid))
    ensures |laid| == |items| && forall i | 0 <= i < |laid| :: IsEntryLayout(laid[i], items[i])
  {
    hide IsEntryLayout, Wrapped, Sound, EncodePackets;
    buf := ListBuffer(packed);
  }

  /** An entry packed: a null one is a void packet. */
  method PackEntry(e: ElementObject?, ghost item: Option<Tree>) returns (w: Packet, ghost l: Element)
    requires e == null <==> item.None?
    requires item.Some? ==> item.value.node == e && Holds(item.value) && PackableTree(item.value)
    modifies if item.Some? then item.value.objects else {}
    ensures item.Some? ==> unchanged(item.value.objects)
    ensures IsEntryLayout(l, item) && w == Wrapped([], l) && Sound(w)
    decreases item, 3
  {
    hide IsLayout, PackableTree, BodyHolds;
    if e == null {
      return Packet(VOID, []), Hole;
    }
    w, l := PackWrapped([], e, item.value);
  }

  /** d_queue_buf: every element is taken out, packed, and put back behind the
      others, so the queue is as it was. */
  method PackQueue(q: QueueObject, ghost b: Body, ghost objects: set<object>)
    returns (buf: array<Byte>, ghost laid: seq<Element>)
    requires b.QueueBody? && b.queue == q && BodyHolds(b, objects)
    requires forall i | 0 <= i < |b.items| && b.items[i].Some? :: PackableTree(b.items[i].value)
    modifies objects
    ensures unchanged(objects) && fresh(buf)
    ensures buf[..] == EncodePackets(ItemPackets(laid))
    ensures |laid| == |b.items| && forall i | 0 <= i < |laid| :: IsEntryLayout(laid[i], b.items[i])
    decreases b, 0
  {
    hide DeepCopy.Holds, BodyHolds, IsEntryLayout, PackableTree, Wrapped, Sound, EncodePackets, LaidItems;
    ItemsHold(b, objects);
    NoItems(b.items);
    ghost var all, items, others := q.que, b.items, objects - {q};
    laid := [];
    var packed := [];
    var length := |q.que|;
    for i := 0 to length
      modifies q`que, others
      invariant unchanged(others) && q.que == all[i..] + all[..i]
      invariant LaidItems(laid, packed, items, i)
    {
      Rotation(all, i);
      var element := q.que[0];
      q.que := q.que[1..];
      assert items[i].Some? ==> Holds(items[i].value);
      var w;
      ghost var l;
      w, l := PackEntry(element, items[i]);
      LaidItem(laid, packed, items, i, l);
      packed := packed + [w];
      laid := laid + [l];
      q.que := q.que + [element];
    }
    assert q.que == all;
    buf := QueueBuffer(packed, laid, items);
  }

  lemma {:induction false} OrderCovers(order: seq<Chars>, keys: set<Chars>)
    requires forall k :: k in order <==> k in keys
    requires forall x, y | 0 <= x < y < |order| :: order[x] != order[y]
    ensures |order| == |keys|
  {
    if order == [] {
      assert keys == {};
    } else {
      var n := |order| - 1;
      assert order[n] in keys;
      forall k ensures k in order[..n] <==> k in keys - {order[n]} {
        if k in order && k != order[n] {
          var x :| 0 <= x < |order| && order[x] == k;
          assert order[..n][x] == k;
        }
      }
      OrderCovers(order[..n], keys - {order[n]});
    }
  }

  /** The first n keys of the order have been laid out, with their packets. */
  ghost predicate LaidTo(laid: seq<Field>, packed: seq<Packet>, order: seq<Chars>, fields: map<Chars, Tree>, n: nat) {
    && |laid| == n <= |order| && packed == FieldPackets(laid)
    && forall x | 0 <= x < n ::
         && laid[x].key == order[x] && order[x] in fields
         && IsLayout(laid[x].element, fields[order[x]]) && Sound(packed[x])
  }

  lemma LaidMore(laid: seq<Field>, packed: seq<Packet>, order: seq<Chars>, fields: map<Chars, Tree>, n: nat, l: Element)
    requires LaidTo(laid, packed, order, fields, n) && n < |order| && order[n] in fields
    requires IsLayout(l, fields[order[n]]) && Sound(Wrapped(order[n] + [NUL], l))
    ensures LaidTo(laid + [Field(order[n], l)], packed + [Wrapped(order[n] + [NUL], l)], order, fields, n + 1)
  {
    hide IsLayout, Wrapped, Sound;
  }

  lemma LaidNone(order: seq<Chars>, fields: map<Chars, Tree>)
    ensures LaidTo([], [], order, fields, 0)
  {
  }

  lemma LaidAll(laid: seq<Field>, packed: seq<Packet>, order: seq<Chars>, fields: map<Chars, Tree>)
    requires LaidTo(laid, packed, order, fields, |order|)
    requires forall k :: k in order <==> k in fields.Keys
    requires forall x, y | 0 <= x < y < |order| :: order[x] != order[y]
    ensures packed == FieldPackets(laid) && |laid| == |fields| && LaidFields(laid, fields)
    ensures forall x | 0 <= x < |packed| :: Sound(packed[x])
  {
    hide IsLayout, Wrapped, Sound;
    OrderCovers(order, fields.Keys);
  }

  /** The loop of d_struct_buf over the slots of a table. */
  method PackTable(table: map<Chars, ElementObject>, ghost fields: map<Chars, Tree>, ghost b: Body,
                   ghost objects: set<object>)
    returns (packed: seq<Packet>, ghost laid: seq<Field>)
    requires Ready(table, fields, objects)
    requires forall k | k in fields :: PackableTree(fields[k]) && Under(fields[k], b)
    modifies objects
    ensures unchanged(objects)
    ensures packed == FieldPackets(laid) && |laid| == |fields| && LaidFields(laid, fields)
    ensures forall x | 0 <= x < |packed| :: Sound(packed[x])
    decreases b, 0
  {
    hide DeepCopy.Holds, IsLayout, PackableTree, Under, Ready, LaidTo, LaidFields, Wrapped, Sound;
    packed, laid := [], [];
    ReadyKeys(table, fields, objects);
    var order := SlotOrder(table.Keys);
    LaidNone(order, fields);
    for i := 0 to |order|
      modifies objects
      invariant unchanged(objects) && Ready(table, fields, objects) && LaidTo(laid, packed, order, fields, i)
    {
      var k := order[i];
      assert k in order;
      ReadyField(table, fields, objects, k);
      UnderIsSmaller(fields[k], b);
      var w;
      ghost var l;
      w, l := PackWrapped(k + [NUL], table[k], fields[k]);
      LaidMore(laid, packed, order, fields, i, l);
      packed := packed + [w];
      laid := laid + [Field(k, l)];
    }
    LaidAll(laid, packed, order, fields);
  }

  lemma UnderIsSmaller(t: Tree, b: Body)
    requires Under(t, b)
    ensures t < b
  {
  }

  method PackStruct(s: StructObject, ghost b: Body, ghost objects: set<object>)
    returns (buf: array<Byte>, ghost laid: seq<Field>)
    requires b.StructBody? && b.struct == s && BodyHolds(b, objects)
    requires b.count == |b.fields| && forall k | k in b.fields :: PackableTree(b.fields[k])
    modifies objects
    ensures unchanged(objects) && fresh(buf)
    ensures buf[..] == EncodePackets(FieldPackets(laid)) && |laid| == |b.fields| && LaidFields(laid, b.fields)
    decreases b, 1
  {
    hide DeepCopy.Holds, IsLayout, PackableTree, Ready, LaidFields, FieldPackets, Sound, EncodePackets;
    FieldsHold(b, objects);
    if s.currentLen == 0 {
      buf := new Byte[8](_ => 0);
      laid := [];
      NothingLaid(b.fields);
      assert buf[..] == Zeros(8);
      return;
    }
    var packed;
    packed, laid := PackTable(s.table, b.fields, b, objects);
    buf := ListBuffer(packed);
  }

  lemma NothingLaid(fields: map<Chars, Tree>)
    ensures LaidFields([], fields) && EncodePackets(FieldPackets([])) == Zeros(8)
  {
    EmptyStruct();
    assert FieldPackets([]) == PacketsOf([]);
  }

  // ---------- arrays ----------

  ghost function Below(cells: map<nat, Tree>, n: nat): map<nat, Tree> {
    map i | i in cells && i < n :: cells[i]
  }

  /** The table of the struct that d_array_buf builds of the cells below n. */
  ghost predicate KeyedTo(table: map<Chars, ElementObject>, fields: map<Chars, Tree>, cells: map<nat, Tree>, n: nat) {
    && table.Keys == fields.Keys && |fields| == |Below(cells, n)|
    && forall k | k in fields :: KeyedAt(k, fields[k], cells, n) && table[k] == fields[k].node
  }

  ghost predicate KeyedAt(k: Chars, t: Tree, cells: map<nat, Tree>, n: nat) {
    Atol(k) in cells && Atol(k) < n && k == Decimal(Atol(k)) && t == cells[Atol(k)]
  }

  lemma BelowMore(cells: map<nat, Tree>, n: nat)
    ensures |Below(cells, n + 1)| == |Below(cells, n)| + if n in cells then 1 else 0
  {
    if n in cells {
      assert Below(cells, n + 1).Keys == Below(cells, n).Keys + {n};
    } else {
      assert Below(cells, n + 1) == Below(cells, n);
    }
  }

  lemma KeyedNone(cells: map<nat, Tree>)
    ensures KeyedTo(map[], map[], cells, 0)
  {
    assert Below(cells, 0) == map[];
  }

  lemma KeyedSkip(table: map<Chars, ElementObject>, fields: map<Chars, Tree>, cells: map<nat, Tree>, n: nat)
    requires KeyedTo(table, fields, cells, n) && n !in cells
    ensures KeyedTo(table, fields, cells, n + 1)
  {
    hide Decimal, Atol, Below;
    BelowMore(cells, n);
  }

  lemma KeyedOne(table: map<Chars, ElementObject>, fields: map<Chars, Tree>, cells: map<nat, Tree>, n: nat)
    requires KeyedTo(table, fields, cells, n) && n in cells && n < TWO_63
    ensures KeyedTo(table[Decimal(n) := cells[n].node], fields[Decimal(n) := cells[n]], cells, n + 1)
  {
    hide Decimal, Atol, Below;
    DecimalRoundTrip(n);
    BelowMore(cells, n);
    KeyedEarlier(fields, cells, n);
    KeyedAdd(table, fields, cells, n, Decimal(n), cells[n]);
  }

  lemma KeyedAdd(table: map<Chars, ElementObject>, fields: map<Chars, Tree>, cells: map<nat, Tree>, n: nat,
                 key: Chars, t: Tree)
    requires KeyedTo(table, fields, cells, n) && |Below(cells, n + 1)| == |Below(cells, n)| + 1
    requires forall k | k in fields :: KeyedAt(k, fields[k], cells, n + 1)
    requires KeyedAt(key, t, cells, n + 1) && key !in fields
    ensures KeyedTo(table[key := t.node], fields[key := t], cells, n + 1)
  {
    hide KeyedAt, Below;
    assert fields[key := t].Keys == fields.Keys + {key};
  }

  lemma KeyedEarlier(fields: map<Chars, Tree>, cells: map<nat, Tree>, n: nat)
    requires forall k | k in fields :: KeyedAt(k, fields[k], cells, n)
    ensures forall k | k in fields :: Atol(k) < n && KeyedAt(k, fields[k], cells, n + 1)
  {
    hide Decimal, Atol;
  }

  /** The packets of the keyed fields are those of the cells. */
  lemma CellsLaid(laid: seq<Field>, table: map<Chars, ElementObject>, fields: map<Chars, Tree>, cells: map<nat, Tree>,
                  n: nat)
    returns (laidCells: seq<Cell>)
    requires KeyedTo(table, fields, cells, n) && LaidFields(laid, fields) && |laid| == |fields|
    requires forall i | i in cells :: i < n
    ensures AsFields(laidCells) == laid && |laidCells| == |cells| && DistinctCells(laidCells)
    ensures forall x | 0 <= x < |laidCells| ::
      laidCells[x].index in cells && IsLayout(laidCells[x].element, cells[laidCells[x].index])
  {
    hide Decimal, Atol, IsLayout;
    assert Below(cells, n) == cells;
    laidCells := seq(|laid|, x requires 0 <= x < |laid| => Cell(Atol(laid[x].key), laid[x].element));
    forall x | 0 <= x < |laid|
      ensures laid[x].key == Decimal(laidCells[x].index) && fields[laid[x].key] == cells[laidCells[x].index]
    {
      assert laid[x].key in fields;
    }
    assert AsFields(laidCells) == laid;
  }

  /** d_array_buf: the elements are put into a temporary struct under their decimal
      keys, and that is packed. */
  method PackArray(a: ArrayObject, ghost b: Body, ghost objects: set<object>)
    returns (buf: array<Byte>, ghost laid: seq<Cell>)
    requires b.ArrayBody? && b.darray == a && BodyHolds(b, objects)
    requires forall i | i in b.cells :: i < TWO_63 && PackableTree(b.cells[i])
    modifies objects
    ensures unchanged(objects) && fresh(buf)
    ensures buf[..] == EncodePackets(FieldPackets(AsFields(laid))) && |laid| == |b.cells| && DistinctCells(laid)
    ensures forall x | 0 <= x < |laid| :: laid[x].index in b.cells && IsLayout(laid[x].element, b.cells[laid[x].index])
    decreases b, 1
  {
    hide DeepCopy.Holds, BodyHolds, IsLayout, PackableTree, KeyedTo, LaidFields, FieldPackets, Sound,
         EncodePackets, Decimal;
    CellsHold(b, objects);
    ghost var cells, fields := b.cells, map[];
    var temp := new StructObject();
    KeyedNone(cells);
    for i := 0 to |a.table|
      modifies temp
      invariant KeyedTo(temp.table, fields, cells, i)
    {
      var element := a.table[i];
      if element != null {
        KeyedOne(temp.table, fields, cells, i);
        temp.table := temp.table[Decimal(i) := element];
        temp.currentLen := temp.currentLen + 1;
        fields := fields[Decimal(i) := cells[i]];
      } else {
        KeyedSkip(temp.table, fields, cells, i);
      }
    }
    KeyedReady(temp.table, fields, b, |a.table|, objects);
    var packed;
    ghost var laidFields;
    packed, laidFields := PackTable(temp.table, fields, b, objects);
    laid := CellsLaid(laidFields, temp.table, fields, cells, |a.table|);
    buf := ListBuffer(packed);
  }

  lemma KeyedReady(table: map<Chars, ElementObject>, fields: map<Chars, Tree>, b: Body, n: nat, objects: set<object>)
    requires b.ArrayBody? && KeyedTo(table, fields, b.cells, n)
    requires forall i | i in b.cells :: PackableTree(b.cells[i]) && b.cells[i].objects <= objects && Holds(b.cells[i])
    ensures Ready(table, fields, objects)
    ensures forall k | k in fields :: PackableTree(fields[k]) && Under(fields[k], b)
  {
    hide DeepCopy.Holds, PackableTree, Decimal, Atol;
  }

  // ---------- elements ----------

  /** The packet of an element, before it is wrapped for its container. */
  method PackElement(e: ElementObject, ghost t: Tree) returns (p: Packet, ghost l: Element)
    requires t.node == e && Holds(t) && PackableTree(t)
    modifies t.objects
    ensures unchanged(t.objects)
    ensures IsLayout(l, t) && p == Inner(l) && e.tag == t.tag
    decreases t, 1
  {
    match e.data {
      case PackedData(packed) =>
        p := Packet(packed.tag, packed.payload[..]);
        l := Packed(t.tag, p);
      case StrData(chars) =>
        var text := CopyText(chars, t.body.text);
        p := Packet(STR, text[..]);
        l := Str(t.body.text);
      case SizedData(bytes) =>
        p := Packet(SIZEDBUF, bytes[..]);
        l := SizedBuf(t.body.content);
      case StructData(s) =>
        var buf;
        ghost var laid;
        buf, laid := PackStruct(s, t.body, t.objects);
        p := Packet(STRUCT, buf[..]);
        l := Struct(laid);
        InnerPackets(l);
      case QueueData(q) =>
        var buf;
        ghost var laid;
        buf, laid := PackQueue(q, t.body, t.objects);
        p := Packet(QUEUE, buf[..]);
        l := Queue(laid);
        InnerPackets(l);
      case ArrayData(a) =>
        var buf;
        ghost var laid;
        buf, laid := PackArray(a, t.body, t.objects);
        p := Packet(ARRAY, buf[..]);
        l := Array(laid);
        InnerPackets(l);
    }
  }
}
