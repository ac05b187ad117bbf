/** d_struct_copy, d_queue_copy and d_array_copy, which call one another. A value
    on the heap is a tree of objects; a Tree is the snapshot of one. */
module DeepCopy {
  import opened Bytes
  import opened Wrappers
  import opened Wire
  import opened Codec

  /** struct drpc_type, with its payload in a buffer of its own. */
  class PackedObject {
    var tag: Byte
    var payload: array<Byte>

    constructor (tag: Byte, payload: array<Byte>)
      ensures this.tag == tag && this.payload == payload
    {
      this.tag, this.payload := tag, payload;
    }
  }

  /** The data pointer of struct d_struct_element, by its type. */
  datatype Data =
    | PackedData(packed: PackedObject)
    | StrData(chars: array<Byte>)
    | SizedData(bytes: array<Byte>)
    | StructData(struct: StructObject)
    | QueueData(queue: QueueObject)
    | ArrayData(darray: ArrayObject)

  class ElementObject {
    var tag: Byte
    var data: Data

    constructor (tag: Byte, data: Data)
      ensures this.tag == tag && this.data == data
    {
      this.tag, this.data := tag, data;
    }
  }

  class StructObject {
    var table: map<Chars, ElementObject>
    var currentLen: nat

    constructor ()
      ensures table == map[] && currentLen == 0
    {
      table, currentLen := map[], 0;
    }
  }

  /** An entry can be a null placeholder. */
  class QueueObject {
    var que: seq<ElementObject?>

    constructor ()
      ensures que == []
    {
      que := [];
    }
  }

  class ArrayObject {
    var table: seq<ElementObject?>
    var realSize: nat

    constructor (size: nat)
      ensures table == seq(size, _ => null) && realSize == 0
    {
      table, realSize := seq(size, _ => null), 0;
    }
  }

  /** All objects of the value are in the set, its own and those of its parts. */
  datatype Tree = Tree(node: ElementObject, tag: Byte, body: Body, objects: set<object>)

  datatype Body =
    | PackedBody(packed: PackedObject, payload: array<Byte>, packet: Packet)
    | StrBody(chars: array<Byte>, text: seq<Byte>)
    | SizedBody(bytes: array<Byte>, content: seq<Byte>)
    | StructBody(struct: StructObject, count: nat, fields: map<Chars, Tree>)
    | QueueBody(queue: QueueObject, items: seq<Option<Tree>>)
    | ArrayBody(darray: ArrayObject, size: nat, count: nat, cells: map<nat, Tree>)

  function DataOf(b: Body): Data {
    match b
    case PackedBody(packed, _, _) => PackedData(packed)
    case StrBody(chars, _) => StrData(chars)
    case SizedBody(bytes, _) => SizedData(bytes)
    case StructBody(s, _, _) => StructData(s)
    case QueueBody(q, _) => QueueData(q)
    case ArrayBody(a, _, _, _) => ArrayData(a)
  }

  /** A pointer's data is what its tag says; the other tags are packed. */
  predicate TagFits(tag: Byte, b: Body) {
    match b
    case PackedBody(_, _, _) => !PointerTag(tag)
    case StrBody(_, _) => tag == STR
    case SizedBody(_, _) => tag == SIZEDBUF
    case StructBody(_, _, _) => tag == STRUCT
    case QueueBody(_, _) => tag == QUEUE
    case ArrayBody(_, _, _, _) => tag == ARRAY
  }

  /** The objects of the tree hold what the tree says. No container is inside
      itself. */
  ghost predicate Holds(t: Tree)
    reads t.objects
    decreases t, 1
  {
    && t.node in t.objects && t.node.tag == t.tag && t.node.data == DataOf(t.body)
    && TagFits(t.tag, t.body) && BodyHolds(t.body, t.objects)
  }

  ghost predicate BodyHolds(b: Body, objects: set<object>)
    reads objects
    decreases b, 0
  {
    match b
    case PackedBody(packed, payload, packet) =>
      && packed in objects && payload in objects
      && packed.tag == packet.tag && packed.payload == payload && payload[..] == packet.payload
    case StrBody(chars, text) =>
      chars in objects && NoNul(text) && |text| < chars.Length && chars[..|text| + 1] == text + [NUL]
    case SizedBody(bytes, content) => bytes in objects && bytes[..] == content
    case StructBody(s, count, fields) =>
      && s in objects && s.table.Keys == fields.Keys && s.currentLen == count
      && forall k | k in fields :: s.table[k] == fields[k].node && Part(fields[k], s, objects) && Holds(fields[k])
    case QueueBody(q, items) =>
      && q in objects && |q.que| == |items|
      && (forall i | 0 <= i < |items| :: q.que[i] == null <==> items[i].None?)
      && forall i | 0 <= i < |items| && items[i].Some? ::
           q.que[i] == items[i].value.node && Part(items[i].value, q, objects) && Holds(items[i].value)
    case ArrayBody(a, size, count, cells) =>
      && a in objects && |a.table| == size && a.realSize == count
      && (forall i | 0 <= i < size :: a.table[i] != null <==> i in cells)
      && forall i | i in cells ::
           i < size && a.table[i] == cells[i].node && Part(cells[i], a, objects) && Holds(cells[i])
  }

  ghost predicate Part(t: Tree, container: object, objects: set<object>) {
    t.objects <= objects && container !in t.objects
  }

  predicate ApartItems(items: seq<Tree>) {
    forall i, j | 0 <= i < j < |items| :: items[i].objects !! items[j].objects
  }

  predicate ApartEntries(items: seq<Option<Tree>>) {
    forall i, j | 0 <= i < j < |items| && items[i].Some? && items[j].Some? ::
      items[i].value.objects !! items[j].value.objects
  }

  predicate ApartFields<K(!new)>(fields: map<K, Tree>) {
    forall k, l | k in fields && l in fields && k != l :: fields[k].objects !! fields[l].objects
  }

  /** A part inside this node and this container, and itself a tree. */
  predicate Branch(t: Tree, node: object, container: object)
    decreases t, 1
  {
    node !in t.objects && container !in t.objects && TreeShaped(t)
  }

  /** No object is in two parts of the tree, so each can be freed by itself. */
  predicate TreeShaped(t: Tree)
    decreases t, 0
  {
    match t.body
    case PackedBody(_, _, _) => true
    case StrBody(_, _) => true
    case SizedBody(_, _) => true
    case StructBody(s, _, fields) => ApartFields(fields) && forall k | k in fields :: Branch(fields[k], t.node, s)
    case QueueBody(q, items) =>
      ApartEntries(items) && forall i | 0 <= i < |items| && items[i].Some? :: Branch(items[i].value, t.node, q)
    case ArrayBody(a, _, _, cells) => ApartFields(cells) && forall i | i in cells :: Branch(cells[i], t.node, a)
  }

  /** No queue inside has a null entry. */
  predicate Complete(t: Tree) {
    match t.body
    case PackedBody(_, _, _) => true
    case StrBody(_, _) => true
    case SizedBody(_, _) => true
    case StructBody(_, _, fields) => forall k | k in fields :: Complete(fields[k])
    case QueueBody(_, items) => forall i | 0 <= i < |items| :: items[i].Some? && Complete(items[i].value)
    case ArrayBody(_, _, _, cells) => forall i | i in cells :: Complete(cells[i])
  }

  /** Each struct and each array counts as many parts as it has. */
  predicate Counted(t: Tree) {
    match t.body
    case PackedBody(_, _, _) => true
    case StrBody(_, _) => true
    case SizedBody(_, _) => true
    case StructBody(_, count, fields) => count == |fields| && forall k | k in fields :: Counted(fields[k])
    case QueueBody(_, items) => forall i | 0 <= i < |items| && items[i].Some? :: Counted(items[i].value)
    case ArrayBody(_, _, count, cells) => count == |cells| && forall i | i in cells :: Counted(cells[i])
  }

  /** The value, without the objects that hold it and without null entries. */
  ghost function Content(t: Tree): Value {
    match t.body
    case PackedBody(_, _, packet) => Simple(t.tag, packet)
    case StrBody(_, text) => Text(text)
    case SizedBody(_, content) => Buffer(content)
    case StructBody(_, _, fields) => Record(map k | k in fields :: Content(fields[k]))
    case QueueBody(_, items) =>
      Items(DropNothing(seq(|items|, i requires 0 <= i < |items| =>
        if items[i].Some? then Content(items[i].value) else Nothing)))
    case ArrayBody(_, _, _, cells) => Cells(map i | i in cells :: Content(cells[i]))
  }

  ghost function Contents<K(!new)>(m: map<K, Tree>): (r: map<K, Value>)
    ensures r.Keys == m.Keys && |r| == |m|
    ensures forall k | k in m :: r[k] == Content(m[k])
  {
    var r := map k | k in m :: Content(m[k]);
    assert r.Keys == m.Keys;
    r
  }

  ghost function ContentsOf(items: seq<Tree>): (r: seq<Value>)
    ensures |r| == |items|
  {
    seq(|items|, i requires 0 <= i < |items| => Content(items[i]))
  }

  /** What the entries of a queue are to a reader, before the null ones are dropped. */
  ghost function EntryValues(items: seq<Option<Tree>>): (r: seq<Value>)
    ensures |r| == |items|
  {
    seq(|items|, i requires 0 <= i < |items| => if items[i].Some? then Content(items[i].value) else Nothing)
  }

  function Entries(items: seq<Tree>): (r: seq<Option<Tree>>)
    ensures |r| == |items|
  {
    seq(|items|, i requires 0 <= i < |items| => Some(items[i]))
  }

  lemma ContentIsSomething(t: Tree)
    ensures !Content(t).Nothing?
  {
  }

  lemma {:induction false} NothingDropped(values: seq<Value>)
    requires forall i | 0 <= i < |values| :: !values[i].Nothing?
    ensures DropNothing(values) == values
  {
    if |values| > 0 {
      NothingDropped(values[1..]);
    }
  }

  /** Where no entry is null, none is dropped. */
  lemma EntriesContent(items: seq<Tree>)
    ensures DropNothing(EntryValues(Entries(items))) == ContentsOf(items)
  {
    hide Content;
    forall i | 0 <= i < |items| ensures !Content(items[i]).Nothing? {
      ContentIsSomething(items[i]);
    }
    assert EntryValues(Entries(items)) == ContentsOf(items);
    NothingDropped(ContentsOf(items));
  }

  // ---------- the copies ----------

  method CopyBuffer(from: array<Byte>) returns (to: array<Byte>)
    ensures fresh(to) && to[..] == from[..]
  {
    to := new Byte[from.Length];
    for i := 0 to from.Length
      invariant to[..i] == from[..i]
    {
      to[i] := from[i];
    }
    assert to[..from.Length] == to[..];
  }

  /** strdup: the text and its terminator. */
  method CopyText(from: array<Byte>, ghost text: Chars) returns (to: array<Byte>)
    requires NoNul(text) && |text| < from.Length && from[..|text| + 1] == text + [NUL]
    ensures fresh(to) && to[..] == text + [NUL]
  {
    var n := 0;
    assert forall i | 0 <= i < |text| :: from[i] == from[..|text| + 1][i] == text[i];
    assert from[|text|] == from[..|text| + 1][|text|] == NUL;
    while from[n] != NUL
      invariant n <= |text|
      decreases |text| - n
    {
      n := n + 1;
    }
    to := new Byte[n + 1](i requires 0 <= i < n + 1 <= from.Length reads from => from[i]);
    assert to[..] == from[..|text| + 1];
  }

  /** The parts made so far: of the values that they shall have, with objects of
      their own. */
  ghost predicate MadeItems(copies: seq<Tree>, values: seq<Value>, parts: set<object>)
    reads parts
  {
    && |copies| <= |values| && ApartItems(copies)
    && forall j | 0 <= j < |copies| ::
         copies[j].objects <= parts && Holds(copies[j]) && TreeShaped(copies[j]) && Content(copies[j]) == values[j]
  }

  ghost predicate MadeFields<K(!new)>(copies: map<K, Tree>, values: map<K, Value>, parts: set<object>)
    reads parts
  {
    && copies.Keys <= values.Keys && ApartFields(copies)
    && forall k | k in copies ::
         copies[k].objects <= parts && Holds(copies[k]) && TreeShaped(copies[k]) && Content(copies[k]) == values[k]
  }

  lemma OneMoreItem(copies: seq<Tree>, values: seq<Value>, parts: set<object>, u: Tree)
    requires MadeItems(copies, values, parts) && |copies| < |values|
    requires Holds(u) && TreeShaped(u) && u.objects !! parts && Content(u) == values[|copies|]
    ensures MadeItems(copies + [u], values, parts + u.objects)
  {
    hide Holds, Content, TreeShaped;
  }

  lemma OneMoreField<K(!new)>(copies: map<K, Tree>, values: map<K, Value>, parts: set<object>, k: K, u: Tree)
    requires MadeFields(copies, values, parts) && k in values && k !in copies
    requires Holds(u) && TreeShaped(u) && u.objects !! parts && Content(u) == values[k]
    ensures MadeFields(copies[k := u], values, parts + u.objects)
  {
    hide Holds, Content, TreeShaped;
  }

  lemma NoneMade<K(!new)>(items: seq<Value>, fields: map<K, Value>)
    ensures MadeItems([], items, {}) && MadeFields(map[], fields, {})
  {
  }

  /** The parts of a body hold, and the container is not among their objects. */
  lemma ItemsHold(b: Body, objects: set<object>)
    requires b.QueueBody? && BodyHolds(b, objects)
    ensures b.queue in objects && |b.queue.que| == |b.items|
    ensures forall i | 0 <= i < |b.items| :: b.queue.que[i] == null <==> b.items[i].None?
    ensures forall i | 0 <= i < |b.items| && b.items[i].Some? ::
      && b.queue.que[i] == b.items[i].value.node
      && b.items[i].value.objects <= objects - {b.queue} && Holds(b.items[i].value)
  {
    hide Holds;
  }

  lemma FieldsHold(b: Body, objects: set<object>)
    requires b.StructBody? && BodyHolds(b, objects)
    ensures b.struct in objects && b.struct.currentLen == b.count && Ready(b.struct.table, b.fields, objects)
  {
    hide Holds;
  }

  lemma CellsHold(b: Body, objects: set<object>)
    requires b.ArrayBody? && BodyHolds(b, objects)
    ensures b.darray in objects && |b.darray.table| == b.size
    ensures forall i | 0 <= i < b.size :: b.darray.table[i] != null <==> i in b.cells
    ensures forall i | i in b.cells ::
      && i < b.size && b.darray.table[i] == b.cells[i].node
      && b.cells[i].objects <= objects - {b.darray} && Holds(b.cells[i])
  {
    hide Holds;
  }

  lemma QueueDone(q: QueueObject, copies: seq<Tree>, values: seq<Value>, parts: set<object>)
    requires MadeItems(copies, values, parts) && |copies| == |values| == |q.que| && q !in parts
    requires forall j | 0 <= j < |copies| :: q.que[j] == copies[j].node
    ensures BodyHolds(QueueBody(q, Entries(copies)), parts + {q})
  {
    hide Holds, Content, TreeShaped;
  }

  /** The table has the copied elements under their keys. */
  ghost predicate SameNodes(table: map<Chars, ElementObject>, copies: map<Chars, Tree>) {
    table.Keys == copies.Keys && forall k | k in copies :: table[k] == copies[k].node
  }

  lemma NoNodes()
    ensures SameNodes(map[], map[])
  {
  }

  lemma OneMoreNode(table: map<Chars, ElementObject>, copies: map<Chars, Tree>, k: Chars, u: Tree)
    requires SameNodes(table, copies) && k !in copies
    ensures SameNodes(table[k := u.node], copies[k := u])
    ensures copies[k := u].Keys == copies.Keys + {k} && |copies[k := u]| == |copies| + 1
  {
    OneMoreKey(copies, k, u);
  }

  lemma StructDone(s: StructObject, copies: map<Chars, Tree>, values: map<Chars, Value>, parts: set<object>)
    requires MadeFields(copies, values, parts) && s !in parts
    requires SameNodes(s.table, copies)
    ensures BodyHolds(StructBody(s, s.currentLen, copies), parts + {s})
  {
    hide Holds, Content, TreeShaped;
  }

  lemma ArrayDone(a: ArrayObject, copies: map<nat, Tree>, values: map<nat, Value>, parts: set<object>)
    requires MadeFields<nat>(copies, values, parts) && a !in parts
    requires forall i | i in copies :: i < |a.table| && a.table[i] == copies[i].node
    requires forall i | 0 <= i < |a.table| :: a.table[i] != null <==> i in copies
    ensures BodyHolds(ArrayBody(a, |a.table|, a.realSize, copies), parts + {a})
  {
    hide Holds, Content, TreeShaped;
  }

  /** Every element is taken out at the front, copied, and put back behind the
      others: afterwards the source is as it was. A null entry, here or in a queue
      inside, fails an assertion, and then there is no copy. */
  method CopyQueue(q: QueueObject, ghost b: Body, ghost objects: set<object>)
    returns (copy: QueueObject?, ghost items: seq<Tree>, ghost made: set<object>)
    requires b.QueueBody? && b.queue == q && BodyHolds(b, objects)
    modifies objects
    ensures copy != null <==> forall i | 0 <= i < |b.items| :: b.items[i].Some? && Complete(b.items[i].value)
    ensures copy != null ==> unchanged(objects) && BodyHolds(QueueBody(copy, Entries(items)), made) && fresh(made)
    ensures copy != null ==> |items| == |b.items| && MadeItems(items, EntryValues(b.items), made - {copy})
    ensures copy != null ==> forall i | 0 <= i < |items| :: Counted(items[i])
    decreases b, 0
  {
    hide Holds, BodyHolds, Content, TreeShaped, MadeItems, Complete, Counted;
    ItemsHold(b, objects);
    ghost var all, others := q.que, objects - {q};
    ghost var values := EntryValues(b.items);
    var copied := new QueueObject();
    ghost var parts: set<object> := {};
    items, made := [], {};
    NoneMade<nat>(values, map[]);
    var length := |q.que|;
    for i := 0 to length
      modifies q`que, copied, others
      invariant unchanged(others) && q.que == all[i..] + all[..i]
      invariant |items| == |copied.que| == i && fresh(parts) && copied !in parts && copied != q
      invariant MadeItems(items, values, parts)
      invariant forall j | 0 <= j < i :: copied.que[j] == items[j].node && Counted(items[j])
      invariant forall j | 0 <= j < i :: b.items[j].Some? && Complete(b.items[j].value)
    {
      Rotation(all, i);
      var element := q.que[0];
      q.que := q.que[1..];
      if element == null {
        return null, items, made;
      }
      assert Holds(b.items[i].value);
      var d;
      ghost var u;
      d, u := CopyElement(element, b.items[i].value);
      if d == null {
        return null, items, made;
      }
      OneMoreItem(items, values, parts, u.value);
      copied.que := copied.que + [d];
      items := items + [u.value];
      parts := parts + u.value.objects;
      q.que := q.que + [element];
    }
    assert q.que == all;
    QueueDone(copied, items, values, parts);
    copy, made := copied, parts + {copied};
    assert made - {copy} == parts;
  }

  /** The keys in the order of their slots: any order will do. */
  method SlotOrder(keys: set<Chars>) returns (order: seq<Chars>)
    ensures forall k :: k in order <==> k in keys
    ensures forall i, j | 0 <= i < j < |order| :: order[i] != order[j]
  {
    order := [];
    var rest := keys;
    while rest != {}
      invariant forall k :: k in keys <==> k in order || k in rest
      invariant forall i | 0 <= i < |order| :: order[i] !in rest
      invariant forall i, j | 0 <= i < j < |order| :: order[i] != order[j]
    {
      var k :| k in rest;
      rest := rest - {k};
      order := order + [k];
    }
  }

  /** The table has the elements of these fields, and they hold. */
  ghost predicate Ready(table: map<Chars, ElementObject>, fields: map<Chars, Tree>, objects: set<object>)
    reads objects
  {
    && table.Keys == fields.Keys
    && forall k | k in fields :: table[k] == fields[k].node && fields[k].objects <= objects && Holds(fields[k])
  }

  lemma ReadyKeys(table: map<Chars, ElementObject>, fields: map<Chars, Tree>, objects: set<object>)
    requires Ready(table, fields, objects)
    ensures table.Keys == fields.Keys
  {
  }

  lemma ReadyField(table: map<Chars, ElementObject>, fields: map<Chars, Tree>, objects: set<object>, k: Chars)
    requires Ready(table, fields, objects) && k in fields
    ensures k in table && table[k] == fields[k].node && fields[k].objects <= objects && Holds(fields[k])
  {
    hide Holds;
  }

  /** The keys of the first i slots have been reached. */
  ghost predicate Reached(reached: set<Chars>, order: seq<Chars>, keys: set<Chars>, i: nat) {
    && reached <= keys && i <= |order| && (forall k :: k in order <==> k in keys)
    && (forall x, y | 0 <= x < y < |order| :: order[x] != order[y])
    && forall x | 0 <= x < |order| :: order[x] in reached <==> x < i
  }

  lemma ReachedNone(order: seq<Chars>, keys: set<Chars>)
    requires forall k :: k in order <==> k in keys
    requires forall x, y | 0 <= x < y < |order| :: order[x] != order[y]
    ensures Reached({}, order, keys, 0)
  {
  }

  lemma ReachNext(reached: set<Chars>, order: seq<Chars>, keys: set<Chars>, i: nat)
    requires Reached(reached, order, keys, i) && i < |order|
    ensures order[i] in keys && order[i] !in reached && Reached(reached + {order[i]}, order, keys, i + 1)
  {
    assert order[i] in order;
  }

  lemma ReachedAll(reached: set<Chars>, order: seq<Chars>, keys: set<Chars>)
    requires Reached(reached, order, keys, |order|)
    ensures reached == keys
  {
    assert forall k | k in keys :: k in order;
  }

  /** The struct after the fields of the first i slots have been copied. */
  ghost predicate CopiedTo(copy: StructObject, fields: map<Chars, Tree>, order: seq<Chars>, i: nat,
                           copies: map<Chars, Tree>, parts: set<object>)
    reads copy, parts
  {
    && Reached(copies.Keys, order, fields.Keys, i) && MadeFields(copies, Contents(fields), parts)
    && (forall k | k in copies :: Counted(copies[k]))
    && SameNodes(copy.table, copies) && copy.currentLen == |copies| && copy !in parts
  }

  lemma NothingCopied(copy: StructObject, fields: map<Chars, Tree>, order: seq<Chars>)
    requires forall k :: k in order <==> k in fields.Keys
    requires forall x, y | 0 <= x < y < |order| :: order[x] != order[y]
    requires copy.table == map[] && copy.currentLen == 0
    ensures CopiedTo(copy, fields, order, 0, map[], {})
  {
    NoNodes();
    NoneMade([], Contents(fields));
    ReachedNone(order, fields.Keys);
    var none: map<Chars, Tree> := map[];
    assert none.Keys == {};
  }

  lemma AllCopied(copy: StructObject, fields: map<Chars, Tree>, order: seq<Chars>, copies: map<Chars, Tree>,
                  parts: set<object>)
    requires CopiedTo(copy, fields, order, |order|, copies, parts)
    ensures copies.Keys == fields.Keys && copy !in parts && forall k | k in copies :: Counted(copies[k])
    ensures MadeFields(copies, Contents(fields), parts) && SameNodes(copy.table, copies) && copy.currentLen == |copies|
  {
    hide MadeFields, SameNodes, Counted;
    ReachedAll(copies.Keys, order, fields.Keys);
  }

  lemma CopiedSoFar(copy: StructObject, fields: map<Chars, Tree>, order: seq<Chars>, i: nat,
                    copies: map<Chars, Tree>, parts: set<object>)
    requires CopiedTo(copy, fields, order, i, copies, parts) && i < |order|
    ensures order[i] in fields && order[i] !in copies && copy !in parts
  {
    ReachNext(copies.Keys, order, fields.Keys, i);
  }

  /** The copy has one more field than the table before had, that of the tree u. */
  lemma CopiedMore(copy: StructObject, fields: map<Chars, Tree>, order: seq<Chars>, i: nat, copies: map<Chars, Tree>,
                   parts: set<object>, before: map<Chars, ElementObject>, u: Tree)
    requires i < |order| && Reached(copies.Keys, order, fields.Keys, i) && order[i] in fields
    requires MadeFields(copies, Contents(fields), parts) && SameNodes(before, copies)
    requires Holds(u) && TreeShaped(u) && u.objects !! parts && Content(u) == Content(fields[order[i]])
    requires Counted(u) && forall k | k in copies :: Counted(copies[k])
    requires copy.table == before[order[i] := u.node] && copy.currentLen == |copies| + 1 && copy !in parts + u.objects
    ensures CopiedTo(copy, fields, order, i + 1, copies[order[i] := u], parts + u.objects)
  {
    hide Holds, Content, Contents, TreeShaped, MadeFields, SameNodes, Reached, Counted;
    ReachNext(copies.Keys, order, fields.Keys, i);
    OneMoreField(copies, Contents(fields), parts, order[i], u);
    OneMoreNode(before, copies, order[i], u);
  }

  /** One field copied under its key; the copy counts it. */
  method CopyField(table: map<Chars, ElementObject>, copy: StructObject, order: seq<Chars>, i: nat,
                   ghost fields: map<Chars, Tree>, ghost objects: set<object>,
                   ghost copies: map<Chars, Tree>, ghost parts: set<object>)
    returns (ok: bool, ghost copiesNow: map<Chars, Tree>, ghost partsNow: set<object>)
    requires i < |order| && Ready(table, fields, objects) && order[i] in fields
    requires copy !in objects && parts !! objects && CopiedTo(copy, fields, order, i, copies, parts)
    modifies copy, objects
    ensures ok <==> Complete(fields[order[i]])
    ensures ok ==> unchanged(objects) && fresh(partsNow - parts)
    ensures ok ==> CopiedTo(copy, fields, order, i + 1, copiesNow, partsNow)
    decreases fields[order[i]], 2
  {
    hide Holds, Content, Contents, TreeShaped, MadeFields, SameNodes, Reached, Ready, Complete, Counted;
    var k := order[i];
    CopiedSoFar(copy, fields, order, i, copies, parts);
    ReadyField(table, fields, objects, k);
    var d;
    ghost var u;
    d, u := CopyElement(table[k], fields[k]);
    if d == null {
      return false, copies, parts;
    }
    ghost var before := copy.table;
    copy.table := copy.table[k := d];
    copy.currentLen := copy.currentLen + 1;
    ok, copiesNow, partsNow := true, copies[k := u.value], parts + u.value.objects;
    CopiedMore(copy, fields, order, i, copies, parts, before, u.value);
    hide CopiedTo;
  }

  /** The loop over the slots of the table. */
  method CopyFields(table: map<Chars, ElementObject>, copy: StructObject,
                    ghost b: Body, ghost fields: map<Chars, Tree>, ghost objects: set<object>)
    returns (ok: bool, ghost copies: map<Chars, Tree>, ghost parts: set<object>)
    requires b.StructBody? && fields == b.fields && copy !in objects && Ready(table, fields, objects)
    requires copy.table == map[] && copy.currentLen == 0
    modifies copy, objects
    ensures ok <==> forall k | k in fields :: Complete(fields[k])
    ensures ok ==> unchanged(objects) && fresh(parts) && copy !in parts && copies.Keys == fields.Keys
    ensures ok ==> MadeFields(copies, Contents(fields), parts) && SameNodes(copy.table, copies)
    ensures ok ==> copy.currentLen == |copies| && forall k | k in copies :: Counted(copies[k])
    decreases b, 0
  {
    hide Holds, MadeFields, SameNodes, Reached, Ready, CopiedTo, Complete, Counted;
    ok, copies, parts := true, map[], {};
    ReadyKeys(table, fields, objects);
    var order := SlotOrder(table.Keys);
    NothingCopied(copy, fields, order);
    for i := 0 to |order|
      modifies copy, objects
      invariant ok && unchanged(objects) && Ready(table, fields, objects)
      invariant CopiedTo(copy, fields, order, i, copies, parts) && fresh(parts)
      invariant forall j | 0 <= j < i :: order[j] in fields && Complete(fields[order[j]])
    {
      assert order[i] in order;
      ok, copies, parts := CopyField(table, copy, order, i, fields, objects, copies, parts);
      if !ok {
        return;
      }
    }
    AllCopied(copy, fields, order, copies, parts);
    forall k | k in fields ensures Complete(fields[k]) {
      assert k in order;
    }
  }

  method CopyStruct(s: StructObject, ghost b: Body, ghost objects: set<object>)
    returns (copy: StructObject?, ghost copies: map<Chars, Tree>, ghost made: set<object>)
    requires b.StructBody? && b.struct == s && BodyHolds(b, objects)
    modifies objects
    ensures copy != null <==> forall k | k in b.fields :: Complete(b.fields[k])
    ensures copy != null ==>
      && unchanged(objects) && BodyHolds(StructBody(copy, |copies|, copies), made) && fresh(made)
      && copies.Keys == b.fields.Keys && MadeFields(copies, Contents(b.fields), made - {copy})
      && forall k | k in copies :: Counted(copies[k])
    decreases b, 1
  {
    hide Holds, BodyHolds, Content, MadeFields, SameNodes, Ready, Complete, Counted;
    FieldsHold(b, objects);
    copy := new StructObject();
    var ok;
    ghost var parts;
    ok, copies, parts := CopyFields(s.table, copy, b, b.fields, objects);
    if !ok {
      return null, copies, {};
    }
    StructDone(copy, copies, Contents(b.fields), parts);
    made := parts + {copy};
    assert made - {copy} == parts;
  }

  /** The array after the first n slots have been copied. */
  ghost predicate CellsTo(copy: ArrayObject, size: nat, cells: map<nat, Tree>, n: nat,
                          copies: map<nat, Tree>, parts: set<object>)
    reads copy, parts
  {
    && copy !in parts && MadeFields<nat>(copies, Contents<nat>(cells), parts) && copy.realSize == |copies|
    && (forall i | i in copies :: Counted(copies[i]))
    && TableTo(copy.table, size, cells, n, copies)
  }

  ghost predicate TableTo(table: seq<ElementObject?>, size: nat, cells: map<nat, Tree>, n: nat,
                          copies: map<nat, Tree>)
  {
    && |table| == size
    && (forall j :: j in copies <==> j in cells && j < n)
    && forall j | 0 <= j < size :: table[j] == if j in copies then copies[j].node else null
  }

  lemma OneMoreKey<K(!new)>(copies: map<K, Tree>, k: K, u: Tree)
    requires k !in copies
    ensures copies[k := u].Keys == copies.Keys + {k} && |copies[k := u]| == |copies| + 1
  {
    assert copies[k := u].Keys == copies.Keys + {k};
  }

  lemma OneMoreCell(table: seq<ElementObject?>, size: nat, cells: map<nat, Tree>, n: nat, copies: map<nat, Tree>,
                    u: Tree)
    requires TableTo(table, size, cells, n, copies) && n < size && n in cells
    ensures TableTo(table[n := u.node], size, cells, n + 1, copies[n := u])
    ensures |table| == size && n !in copies && |copies[n := u]| == |copies| + 1
  {
    OneMoreKey<nat>(copies, n, u);
    var now := copies[n := u];
    forall j | 0 <= j < size ensures table[n := u.node][j] == if j in now then now[j].node else null {
      assert j in now <==> j == n || j in copies;
    }
  }

  lemma NoCells(copy: ArrayObject, size: nat, cells: map<nat, Tree>)
    requires copy.table == seq(size, _ => null) && copy.realSize == 0
    ensures CellsTo(copy, size, cells, 0, map[], {})
  {
    NoneMade<nat>([], Contents<nat>(cells));
  }

  lemma SkippedCell(table: seq<ElementObject?>, size: nat, cells: map<nat, Tree>, n: nat, copies: map<nat, Tree>)
    requires TableTo(table, size, cells, n, copies) && n !in cells
    ensures TableTo(table, size, cells, n + 1, copies)
  {
    forall j ensures j in copies <==> j in cells && j < n + 1 {
      assert j in copies <==> j in cells && j < n;
    }
  }

  lemma EmptyCell(copy: ArrayObject, size: nat, cells: map<nat, Tree>, n: nat, copies: map<nat, Tree>,
                  parts: set<object>)
    requires CellsTo(copy, size, cells, n, copies, parts) && n !in cells
    ensures CellsTo(copy, size, cells, n + 1, copies, parts)
  {
    hide MadeFields, Counted, TableTo, Contents;
    SkippedCell(copy.table, size, cells, n, copies);
  }

  lemma TableFull(table: seq<ElementObject?>, size: nat, cells: map<nat, Tree>, copies: map<nat, Tree>)
    requires TableTo(table, size, cells, size, copies) && forall i | i in cells :: i < size
    ensures copies.Keys == cells.Keys && |table| == size
    ensures forall i | i in copies :: i < size && table[i] == copies[i].node
    ensures forall i | 0 <= i < size :: table[i] != null <==> i in copies
  {
    assert forall i | i in cells :: i in copies;
  }

  lemma AllCells(copy: ArrayObject, size: nat, cells: map<nat, Tree>, copies: map<nat, Tree>, parts: set<object>)
    requires CellsTo(copy, size, cells, size, copies, parts) && forall i | i in cells :: i < size
    ensures copies.Keys == cells.Keys && forall i | i in copies :: Counted(copies[i])
    ensures MadeFields<nat>(copies, Contents<nat>(cells), parts)
    ensures BodyHolds(ArrayBody(copy, size, |copies|, copies), parts + {copy}) && copy !in parts
  {
    hide MadeFields, BodyHolds, Counted, TableTo;
    TableFull(copy.table, size, cells, copies);
    ArrayDone(copy, copies, Contents<nat>(cells), parts);
  }

  /** One occupied cell copied to its index; the copy counts it. */
  method CopyCell(element: ElementObject, copy: ArrayObject, n: nat, ghost size: nat, ghost cells: map<nat, Tree>,
                  ghost objects: set<object>, ghost copies: map<nat, Tree>, ghost parts: set<object>)
    returns (ok: bool, ghost copiesNow: map<nat, Tree>, ghost partsNow: set<object>)
    requires n in cells && n < size && element == cells[n].node && cells[n].objects <= objects && Holds(cells[n])
    requires copy !in objects && parts !! objects && CellsTo(copy, size, cells, n, copies, parts)
    modifies copy, objects
    ensures ok <==> Complete(cells[n])
    ensures ok ==> unchanged(objects) && fresh(partsNow - parts)
    ensures ok ==> CellsTo(copy, size, cells, n + 1, copiesNow, partsNow)
    decreases cells[n], 2
  {
    hide Holds, Content, TreeShaped, MadeFields, TableTo, Complete, Counted;
    var d;
    ghost var u;
    d, u := CopyElement(element, cells[n]);
    if d == null {
      return false, copies, parts;
    }
    OneMoreCell(copy.table, size, cells, n, copies, u.value);
    OneMoreField<nat>(copies, Contents<nat>(cells), parts, n, u.value);
    copy.table := copy.table[n := d];
    copy.realSize := copy.realSize + 1;
    ok, copiesNow, partsNow := true, copies[n := u.value], parts + u.value.objects;
  }

  /** The loop over the lookup table. */
  method CopyArray(a: ArrayObject, ghost b: Body, ghost objects: set<object>)
    returns (copy: ArrayObject?, ghost copies: map<nat, Tree>, ghost made: set<object>)
    requires b.ArrayBody? && b.darray == a && BodyHolds(b, objects)
    modifies objects
    ensures copy != null <==> forall i | i in b.cells :: Complete(b.cells[i])
    ensures copy != null ==>
      && unchanged(objects) && BodyHolds(ArrayBody(copy, b.size, |copies|, copies), made) && fresh(made)
      && copies.Keys == b.cells.Keys && MadeFields<nat>(copies, Contents<nat>(b.cells), made - {copy})
      && forall i | i in copies :: Counted(copies[i])
    decreases b, 0
  {
    hide Holds, BodyHolds, Content, MadeFields, CellsTo, Complete, Counted;
    CellsHold(b, objects);
    ghost var cells := b.cells;
    copy := new ArrayObject(|a.table|);
    ghost var parts: set<object> := {};
    copies := map[];
    NoCells(copy, b.size, cells);
    for i := 0 to |a.table|
      modifies copy, objects
      invariant copy != null && copy !in objects
      invariant unchanged(objects) && fresh(parts) && CellsTo(copy, b.size, cells, i, copies, parts)
      invariant forall j | j in cells && j < i :: Complete(cells[j])
    {
      var element := a.table[i];
      if element != null {
        assert Holds(cells[i]);
        var ok;
        ok, copies, parts := CopyCell(element, copy, i, b.size, cells, objects, copies, parts);
        if !ok {
          return null, copies, {};
        }
      } else {
        EmptyCell(copy, b.size, cells, i, copies, parts);
      }
    }
    AllCells(copy, b.size, cells, copies, parts);
    made := parts + {copy};
    assert made - {copy} == parts;
  }

  /** The switch over the type of an element, the same in all three copies. There is
      a copy if and only if no queue inside has a null entry. */
  method CopyElement(e: ElementObject, ghost t: Tree) returns (c: ElementObject?, ghost u: Option<Tree>)
    requires t.node == e && Holds(t)
    modifies t.objects
    ensures c != null <==> Complete(t)
    ensures c != null ==> unchanged(t.objects) && u.Some? && Copied(c, u.value, t) && fresh(u.value.objects)
    decreases t, 1
  {
    match e.data {
      case PackedData(p) =>
        var payload := CopyBuffer(p.payload);
        var packed := new PackedObject(p.tag, payload);
        c := new ElementObject(e.tag, PackedData(packed));
        u := Some(Tree(c, t.tag, PackedBody(packed, payload, t.body.packet), {c, packed, payload}));
      case StrData(chars) =>
        var copy := CopyText(chars, t.body.text);
        c := new ElementObject(e.tag, StrData(copy));
        u := Some(Tree(c, t.tag, StrBody(copy, t.body.text), {c, copy}));
      case SizedData(bytes) =>
        var copy := CopyBuffer(bytes);
        c := new ElementObject(e.tag, SizedData(copy));
        u := Some(Tree(c, t.tag, SizedBody(copy, t.body.content), {c, copy}));
      case StructData(s) =>
        c, u := CopyStructElement(s, e, t);
      case QueueData(q) =>
        c, u := CopyQueueElement(q, e, t);
      case ArrayData(a) =>
        c, u := CopyArrayElement(a, e, t);
    }
  }

  /** c, with the tree u, is a copy of the tree t; its counts are right whatever
      those of the source are. */
  ghost predicate Copied(c: ElementObject, u: Tree, t: Tree)
    reads u.objects
  {
    u.node == c && Holds(u) && TreeShaped(u) && Counted(u) && Content(u) == Content(t)
  }

  lemma Wider(b: Body, made: set<object>, c: ElementObject, tag: Byte)
    requires BodyHolds(b, made) && c.tag == tag && c.data == DataOf(b) && TagFits(tag, b)
    ensures Holds(Tree(c, tag, b, made + {c}))
  {
    hide Content;
  }

  lemma SameFields<K(!new)>(copies: map<K, Tree>, values: map<K, Value>, parts: set<object>)
    requires MadeFields(copies, values, parts) && copies.Keys == values.Keys
    ensures Contents(copies) == values
  {
    hide Content, Holds, TreeShaped;
  }

  lemma SameItems(copies: seq<Tree>, values: seq<Value>, parts: set<object>)
    requires MadeItems(copies, values, parts) && |copies| == |values|
    ensures ContentsOf(copies) == values
  {
    hide Content, Holds, TreeShaped;
  }

  /** The value of a container in terms of its parts. */
  lemma ContentOfParts(t: Tree)
    ensures t.body.StructBody? ==> Content(t) == Record(Contents(t.body.fields))
    ensures t.body.QueueBody? ==> Content(t) == Items(DropNothing(EntryValues(t.body.items)))
    ensures t.body.ArrayBody? ==> Content(t) == Cells(Contents<nat>(t.body.cells))
  {
  }

  lemma ShapedFields<K(!new)>(copies: map<K, Tree>, values: map<K, Value>, made: set<object>,
                                      container: object, node: object)
    requires MadeFields(copies, values, made - {container}) && node !in made
    ensures ApartFields(copies) && forall k | k in copies :: Branch(copies[k], node, container)
  {
    hide Content, Holds, TreeShaped;
  }

  lemma ShapedItems(copies: seq<Tree>, values: seq<Value>, made: set<object>, container: object, node: object)
    requires MadeItems(copies, values, made - {container}) && node !in made
    ensures ApartEntries(Entries(copies)) && forall i | 0 <= i < |copies| :: Branch(copies[i], node, container)
  {
    hide Content, Holds, TreeShaped;
  }

  /** An element around the fields, items or cells made has their values. */
  lemma StructElement(u: Tree, values: map<Chars, Value>, made: set<object>, copy: StructObject)
    requires u.tag == STRUCT && u.body.StructBody? && u.body.struct == copy
    requires u.node !in made && u.objects == made + {u.node}
    requires u.node.tag == u.tag && u.node.data == StructData(copy) && BodyHolds(u.body, made)
    requires u.body.fields.Keys == values.Keys
    requires MadeFields(u.body.fields, values, made - {copy})
    ensures Holds(u) && TreeShaped(u) && Content(u) == Record(values)
  {
    hide BodyHolds, Branch, Contents, MadeFields, ApartFields;
    Wider(u.body, made, u.node, u.tag);
    SameFields(u.body.fields, values, made - {copy});
    ShapedFields(u.body.fields, values, made, copy, u.node);
    ContentOfParts(u);
  }

  lemma QueueElement(u: Tree, copies: seq<Tree>, values: seq<Value>, made: set<object>, copy: QueueObject)
    requires u.tag == QUEUE && u.body == QueueBody(copy, Entries(copies))
    requires u.node !in made && u.objects == made + {u.node}
    requires u.node.tag == u.tag && u.node.data == QueueData(copy) && BodyHolds(u.body, made)
    requires |copies| == |values|
    requires MadeItems(copies, values, made - {copy})
    ensures Holds(u) && TreeShaped(u) && Content(u) == Items(values)
  {
    hide BodyHolds, Branch, ContentsOf, EntryValues, MadeItems, ApartEntries;
    Wider(u.body, made, u.node, u.tag);
    SameItems(copies, values, made - {copy});
    EntriesContent(copies);
    ShapedItems(copies, values, made, copy, u.node);
    ContentOfParts(u);
  }

  lemma ArrayElement(u: Tree, values: map<nat, Value>, made: set<object>, copy: ArrayObject)
    requires u.tag == ARRAY && u.body.ArrayBody? && u.body.darray == copy
    requires u.node !in made && u.objects == made + {u.node}
    requires u.node.tag == u.tag && u.node.data == ArrayData(copy) && BodyHolds(u.body, made)
    requires u.body.cells.Keys == values.Keys
    requires MadeFields<nat>(u.body.cells, values, made - {copy})
    ensures Holds(u) && TreeShaped(u) && Content(u) == Cells(values)
  {
    hide BodyHolds, Branch, Contents, MadeFields, ApartFields;
    Wider(u.body, made, u.node, u.tag);
    SameFields<nat>(u.body.cells, values, made - {copy});
    ShapedFields<nat>(u.body.cells, values, made, copy, u.node);
    ContentOfParts(u);
  }

  /** What is known of a tree of one of the three containers, part by part. */
  lemma HeldBody(t: Tree)
    requires Holds(t)
    ensures t.node in t.objects && t.node.tag == t.tag && t.node.data == DataOf(t.body)
    ensures TagFits(t.tag, t.body) && BodyHolds(t.body, t.objects)
    ensures t.body.StructBody? ==> (Complete(t) <==> forall k | k in t.body.fields :: Complete(t.body.fields[k]))
    ensures t.body.ArrayBody? ==> (Complete(t) <==> forall i | i in t.body.cells :: Complete(t.body.cells[i]))
    ensures t.body.QueueBody? ==>
      (Complete(t) <==>
        forall i | 0 <= i < |t.body.items| :: t.body.items[i].Some? && Complete(t.body.items[i].value))
  {
  }

  lemma CountedParts(t: Tree)
    ensures t.body.StructBody? ==>
      (Counted(t) <==>
        t.body.count == |t.body.fields| && forall k | k in t.body.fields :: Counted(t.body.fields[k]))
    ensures t.body.ArrayBody? ==>
      (Counted(t) <==> t.body.count == |t.body.cells| && forall i | i in t.body.cells :: Counted(t.body.cells[i]))
    ensures t.body.QueueBody? ==>
      (Counted(t) <==> forall i | 0 <= i < |t.body.items| && t.body.items[i].Some? :: Counted(t.body.items[i].value))
  {
  }

  method CopyStructElement(s: StructObject, e: ElementObject, ghost t: Tree)
    returns (c: ElementObject?, ghost u: Option<Tree>)
    requires t.node == e && Holds(t) && e.data == StructData(s)
    modifies t.objects
    ensures c != null <==> Complete(t)
    ensures c != null ==> unchanged(t.objects) && u.Some? && Copied(c, u.value, t) && fresh(u.value.objects)
    decreases t, 0
  {
    hide Holds, BodyHolds, MadeFields, Contents, Content, TreeShaped, Counted, Complete;
    HeldBody(t);
    var copy;
    ghost var copies, made;
    copy, copies, made := CopyStruct(s, t.body, t.objects);
    if copy == null {
      return null, None;
    }
    c := new ElementObject(e.tag, StructData(copy));
    ghost var v := Tree(c, t.tag, StructBody(copy, |copies|, copies), made + {c});
    StructElement(v, Contents(t.body.fields), made, copy);
    CountedParts(v);
    ContentOfParts(t);
    u := Some(v);
  }

  method CopyQueueElement(q: QueueObject, e: ElementObject, ghost t: Tree)
    returns (c: ElementObject?, ghost u: Option<Tree>)
    requires t.node == e && Holds(t) && e.data == QueueData(q)
    modifies t.objects
    ensures c != null <==> Complete(t)
    ensures c != null ==> unchanged(t.objects) && u.Some? && Copied(c, u.value, t) && fresh(u.value.objects)
    decreases t, 0
  {
    hide Holds, BodyHolds, MadeItems, EntryValues, Content, TreeShaped, Counted, Complete;
    HeldBody(t);
    var copy;
    ghost var copies, made;
    copy, copies, made := CopyQueue(q, t.body, t.objects);
    if copy == null {
      return null, None;
    }
    c := new ElementObject(e.tag, QueueData(copy));
    ghost var v := Tree(c, t.tag, QueueBody(copy, Entries(copies)), made + {c});
    QueueElement(v, copies, EntryValues(t.body.items), made, copy);
    CountedParts(v);
    AllEntriesKept(t.body.items);
    ContentOfParts(t);
    u := Some(v);
  }

  lemma AllEntriesKept(items: seq<Option<Tree>>)
    requires forall i | 0 <= i < |items| :: items[i].Some?
    ensures DropNothing(EntryValues(items)) == EntryValues(items)
  {
    hide Content;
    forall i | 0 <= i < |items| ensures !EntryValues(items)[i].Nothing? {
      ContentIsSomething(items[i].value);
    }
    NothingDropped(EntryValues(items));
  }

  method CopyArrayElement(a: ArrayObject, e: ElementObject, ghost t: Tree)
    returns (c: ElementObject?, ghost u: Option<Tree>)
    requires t.node == e && Holds(t) && e.data == ArrayData(a)
    modifies t.objects
    ensures c != null <==> Complete(t)
    ensures c != null ==> unchanged(t.objects) && u.Some? && Copied(c, u.value, t) && fresh(u.value.objects)
    decreases t, 0
  {
    hide Holds, BodyHolds, MadeFields, Contents, Content, TreeShaped, Counted, Complete;
    HeldBody(t);
    var copy;
    ghost var copies, made;
    copy, copies, made := CopyArray(a, t.body, t.objects);
    if copy == null {
      return null, None;
    }
    c := new ElementObject(e.tag, ArrayData(copy));
    ghost var v := Tree(c, t.tag, ArrayBody(copy, t.body.size, |copies|, copies), made + {c});
    ArrayElement(v, Contents<nat>(t.body.cells), made, copy);
    CountedParts(v);
    ContentOfParts(t);
    u := Some(v);
  }
}
