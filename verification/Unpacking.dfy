/** buf_d_struct, buf_d_queue and buf_d_array, which call one another and build
    objects out of any bytes that can be read; and a value sent from heap to heap. */
module Unpacking {
  import opened Bytes
  import opened Wrappers
  import opened Wire
  import opened Codec
  import opened WireBuffers
  import opened DStructBuffers
  import opened Containers
  import opened DeepCopy
  import opened Packing

  // ---------- what the bytes are like ----------

  /** What can be asked of the structs and arrays on the wire. */
  datatype Check = KeysOnce | IndicesOnce | CountsRight

  /** No key of an array comes twice; no two read as one index; both, and no key of
      a struct comes twice either. */
  ghost predicate Passes(check: Check, tag: Byte, pairs: seq<(Chars, Value)>) {
    match check
    case KeysOnce => tag == ARRAY ==> DistinctKeys(Present(pairs))
    case IndicesOnce => tag == ARRAY ==> DistinctIndices(SetAll(pairs))
    case CountsRight => DistinctKeys(Present(pairs)) && (tag == ARRAY ==> DistinctIndices(SetAll(pairs)))
  }

  /** The check passes for this element and for everything inside it. */
  ghost predicate Throughout(check: Check, tag: Byte, b: seq<Byte>)
    decreases |b|, 0
  {
    DecodePacket(b).Some? ==> ThroughoutInner(check, tag, DecodePacket(b).value.0)
  }

  ghost predicate ThroughoutInner(check: Check, tag: Byte, p: Packet)
    decreases |p.payload|, 3
  {
    && (tag == ARRAY || tag == STRUCT ==> FieldsThroughout(check, tag, p.payload))
    && (tag == QUEUE ==> ItemsThroughout(check, p.payload))
  }

  ghost predicate ItemThroughout(check: Check, p: Packet)
    decreases |p.payload|, 1
  {
    p.tag != VOID ==> Throughout(check, p.tag, p.payload)
  }

  ghost predicate FieldThroughout(check: Check, p: Packet)
    decreases |p.payload|, 1
  {
    p.tag != VOID && CString(p.payload).Some? ==>
      Throughout(check, p.tag, p.payload[|CString(p.payload).value| + 1..])
  }

  ghost predicate ItemsThroughout(check: Check, b: seq<Byte>)
    decreases |b|, 2
  {
    DecodePackets(b).Some? ==>
      var ps := DecodePackets(b).value; forall i | 0 <= i < |ps| :: ItemThroughout(check, ps[i])
  }

  ghost predicate FieldsThroughout(check: Check, tag: Byte, b: seq<Byte>)
    decreases |b|, 2
  {
    && (DecodeFields(b).Some? ==> Passes(check, tag, DecodeFields(b).value))
    && (DecodePackets(b).Some? ==>
          var ps := DecodePackets(b).value; forall i | 0 <= i < |ps| :: FieldThroughout(check, ps[i]))
  }

  /** The first n packets pass. */
  ghost predicate ItemsTo(check: Check, ps: seq<Packet>, n: nat) {
    forall i | 0 <= i < n && i < |ps| :: ItemThroughout(check, ps[i])
  }

  ghost predicate FieldsTo(check: Check, ps: seq<Packet>, n: nat) {
    forall i | 0 <= i < n && i < |ps| :: FieldThroughout(check, ps[i])
  }

  lemma ItemsAre(check: Check, b: seq<Byte>, ps: seq<Packet>)
    requires DecodePackets(b) == Some(ps)
    ensures ItemsThroughout(check, b) <==> ItemsTo(check, ps, |ps|)
  {
    hide ItemThroughout;
  }

  lemma FieldsAre(check: Check, tag: Byte, b: seq<Byte>, ps: seq<Packet>)
    requires DecodePackets(b) == Some(ps) && DecodeFields(b).Some?
    ensures FieldsThroughout(check, tag, b) <==> Passes(check, tag, DecodeFields(b).value) && FieldsTo(check, ps, |ps|)
  {
    hide FieldThroughout, Passes;
  }

  lemma OneMoreTo(check: Check, ps: seq<Packet>, n: nat)
    requires n < |ps|
    ensures ItemsTo(check, ps, n + 1) <==> ItemsTo(check, ps, n) && ItemThroughout(check, ps[n])
    ensures FieldsTo(check, ps, n + 1) <==> FieldsTo(check, ps, n) && FieldThroughout(check, ps[n])
    ensures ItemsTo(check, ps, |ps|) ==> ItemsTo(check, ps, n + 1)
    ensures FieldsTo(check, ps, |ps|) ==> FieldsTo(check, ps, n + 1)
    ensures ItemsTo(check, ps, 0) && FieldsTo(check, ps, 0)
  {
    hide ItemThroughout, FieldThroughout;
  }

  lemma NoneTo(check: Check, ps: seq<Packet>)
    ensures ItemsTo(check, ps, 0) && FieldsTo(check, ps, 0)
  {
  }

  // ---------- what is built ----------

  ghost predicate AllCounted<K(!new)>(parts: map<K, Tree>) {
    forall k | k in parts :: Counted(parts[k])
  }

  ghost predicate AllCountedItems(items: seq<Tree>) {
    forall i | 0 <= i < |items| :: Counted(items[i])
  }

  /** e, with the tree u, is built of the packet p: its counts are right if and only if
      no key and no index comes twice, and unless an index does it is the value that
      the packet means. */
  ghost predicate Built(e: ElementObject, u: Tree, tag: Byte, p: Packet)
    requires DecodeInner(tag, p).Some?
    reads u.objects
  {
    && u.node == e && u.tag == tag && Holds(u) && TreeShaped(u)
    && (Counted(u) <==> ThroughoutInner(CountsRight, tag, p))
    && (ThroughoutInner(IndicesOnce, tag, p) ==> Content(u) == DecodeInner(tag, p).value)
  }

  // ---------- queues ----------

  method ReadPackets(payload: seq<Byte>) returns (types: array<Packet>)
    requires DecodePackets(payload).Some?
    ensures fresh(types) && Some(types[..]) == DecodePackets(payload)
  {
    hide DecodePackets;
    var buf := ArrayOf(payload);
    assert buf[0..] == payload;
    types := BufDrpcTypes(buf, 0);
  }

  /** The items after the first n packets, decoded as values. */
  ghost predicate ItemsBuilt(items: seq<Tree>, ps: seq<Packet>, n: nat, values: seq<Value>) {
    && n <= |ps| == |values|
    && (AllCountedItems(items) <==> ItemsTo(CountsRight, ps, n))
    && (ItemsTo(IndicesOnce, ps, n) ==> ContentsOf(items) == DropNothing(values[..n]))
  }

  lemma ItemBuilt(items: seq<Tree>, ps: seq<Packet>, n: nat, values: seq<Value>, u: Tree)
    requires ItemsBuilt(items, ps, n, values) && n < |ps| && !values[n].Nothing?
    requires Counted(u) <==> ItemThroughout(CountsRight, ps[n])
    requires ItemThroughout(IndicesOnce, ps[n]) ==> Content(u) == values[n]
    ensures ItemsBuilt(items + [u], ps, n + 1, values)
  {
    hide Counted, Content, ItemsTo, ItemThroughout, DropNothing;
    OneMoreTo(CountsRight, ps, n);
    OneMoreTo(IndicesOnce, ps, n);
    assert values[..n + 1] == values[..n] + [values[n]];
    DropLast(values[..n], values[n]);
    assert ContentsOf(items + [u]) == ContentsOf(items) + [Content(u)];
    OneMoreCounted(items, u);
    hide ContentsOf, AllCountedItems;
  }

  lemma OneMoreCounted(items: seq<Tree>, u: Tree)
    ensures AllCountedItems(items + [u]) <==> AllCountedItems(items) && Counted(u)
  {
    hide Counted;
    var more := items + [u];
    assert more[|items|] == u;
    assert forall i | 0 <= i < |items| :: more[i] == items[i];
  }

  lemma ItemSkipped(items: seq<Tree>, ps: seq<Packet>, n: nat, values: seq<Value>)
    requires ItemsBuilt(items, ps, n, values) && n < |ps| && values[n].Nothing? && ps[n].tag == VOID
    ensures ItemsBuilt(items, ps, n + 1, values)
  {
    hide ItemsTo, AllCountedItems, ContentsOf, DropNothing;
    OneMoreTo(CountsRight, ps, n);
    OneMoreTo(IndicesOnce, ps, n);
    assert values[..n + 1] == values[..n] + [values[n]];
    DropLast(values[..n], values[n]);
  }

  lemma NoItemsBuilt(ps: seq<Packet>, values: seq<Value>)
    requires |ps| == |values|
    ensures ItemsBuilt([], ps, 0, values)
  {
    NoneTo(CountsRight, ps);
    NoneTo(IndicesOnce, ps);
    assert values[..0] == [];
  }

  lemma MoreItems(items: seq<Tree>, parts: set<object>, u: Tree)
    requires MadeItems(items, ContentsOf(items), parts)
    requires Holds(u) && TreeShaped(u) && u.objects !! parts
    ensures MadeItems(items + [u], ContentsOf(items + [u]), parts + u.objects)
  {
    hide Holds, Content, TreeShaped;
  }

  /** The queue's payload, packet by packet; void packets are skipped. */
  method UnpackQueue(payload: seq<Byte>) returns (q: QueueObject?, ghost items: seq<Tree>, ghost made: set<object>)
    requires DecodeItems(payload).Some?
    ensures q != null <==> ItemsThroughout(KeysOnce, payload)
    ensures q != null ==>
      && fresh(made) && BodyHolds(QueueBody(q, Entries(items)), made)
      && MadeItems(items, ContentsOf(items), made - {q})
      && (AllCountedItems(items) <==> ItemsThroughout(CountsRight, payload))
      && (ItemsThroughout(IndicesOnce, payload) ==> ContentsOf(items) == DropNothing(DecodeItems(payload).value))
    decreases |payload|, 1
  {
    hide Holds, BodyHolds, Content, ContentsOf, TreeShaped, MadeItems, DropNothing, DecodeItem, DecodeItems,
         DecodePackets, ItemsThroughout, ItemsTo, ItemsBuilt, AllCountedItems, Counted;
    ghost var values := DecodeItems(payload).value;
    ItemsOfPackets(payload);
    var types := ReadPackets(payload);
    var ps := types[..];
    ItemsAre(KeysOnce, payload, ps);
    ItemsAre(CountsRight, payload, ps);
    ItemsAre(IndicesOnce, payload, ps);
    q := new QueueObject();
    ghost var parts: set<object> := {};
    items, made := [], {};
    NoItemsBuilt(ps, values);
    NoneTo(KeysOnce, ps);
    NothingMade();
    for i := 0 to |ps|
      invariant q != null && |items| == |q.que| && fresh(parts) && q !in parts
      invariant ItemsTo(KeysOnce, ps, i) && ItemsBuilt(items, ps, i, values)
      invariant MadeItems(items, ContentsOf(items), parts)
      invariant forall j | 0 <= j < |items| :: q.que[j] == items[j].node
    {
      OneMoreTo(KeysOnce, ps, i);
      DecodedItem(ps[i]);
      if ps[i].tag == VOID {
        ItemSkipped(items, ps, i, values);
        continue;
      }
      var e;
      ghost var u;
      e, u := UnpackElement(ps[i].tag, ps[i].payload);
      if e == null {
        return null, items, made;
      }
      ItemBuilt(items, ps, i, values, u.value);
      MoreItems(items, parts, u.value);
      q.que := q.que + [e];
      items := items + [u.value];
      parts := parts + u.value.objects;
    }
    assert values[..|values|] == values;
    ItemsComplete(items, ps, values);
    QueueDone(q, items, ContentsOf(items), parts);
    made := parts + {q};
    assert made - {q} == parts;
  }

  lemma NothingMade()
    ensures MadeItems([], ContentsOf([]), {}) && MadeFields<Chars>(map[], Contents<Chars>(map[]), {})
  {
    assert Contents<Chars>(map[]) == map[];
  }

  lemma ItemsComplete(items: seq<Tree>, ps: seq<Packet>, values: seq<Value>)
    requires ItemsBuilt(items, ps, |ps|, values)
    ensures AllCountedItems(items) <==> ItemsTo(CountsRight, ps, |ps|)
    ensures ItemsTo(IndicesOnce, ps, |ps|) ==> ContentsOf(items) == DropNothing(values)
  {
    hide AllCountedItems, ContentsOf, DropNothing, ItemsTo;
    assert values[..|ps|] == values;
  }

  // ---------- structs ----------

  /** The fields after the first n packets, decoded as pairs; count is current_len. */
  ghost predicate FieldsBuilt(fields: map<Chars, Tree>, count: nat, ps: seq<Packet>, n: nat,
                              pairs: seq<(Chars, Value)>)
  {
    && n <= |ps| == |pairs|
    && fields.Keys == SetAll(pairs[..n]).Keys && count == |Present(pairs[..n])|
    && (DistinctKeys(Present(pairs[..n])) ==> (AllCounted(fields) <==> FieldsTo(CountsRight, ps, n)))
    && (FieldsTo(IndicesOnce, ps, n) ==> Contents(fields) == SetAll(pairs[..n]))
  }

  lemma NoFieldsBuilt(ps: seq<Packet>, pairs: seq<(Chars, Value)>)
    requires |ps| == |pairs|
    ensures FieldsBuilt(map[], 0, ps, 0, pairs)
  {
    NoneTo(CountsRight, ps);
    NoneTo(IndicesOnce, ps);
    assert pairs[..0] == [];
    assert Contents<Chars>(map[]) == map[];
    var none: map<Chars, Tree> := map[];
    assert none.Keys == {};
  }

  lemma FieldSkipped(fields: map<Chars, Tree>, count: nat, ps: seq<Packet>, n: nat, pairs: seq<(Chars, Value)>)
    requires FieldsBuilt(fields, count, ps, n, pairs) && n < |ps|
    requires ps[n].tag == VOID && DecodeField(ps[n]) == Some(pairs[n])
    ensures FieldsBuilt(fields, count, ps, n + 1, pairs)
  {
    hide SetAll, Present, FieldsTo, AllCounted, Contents, DistinctKeys, CString;
    OneMoreTo(CountsRight, ps, n);
    OneMoreTo(IndicesOnce, ps, n);
    assert pairs[..n + 1] == pairs[..n] + [pairs[n]];
    VoidField(ps[n], pairs[..n]);
  }

  /** One more pair: a key that was there before makes the counts differ. */
  lemma OnePairMore(pairs: seq<(Chars, Value)>, n: nat)
    requires n < |pairs| && !pairs[n].1.Nothing?
    ensures SetAll(pairs[..n + 1]) == SetAll(pairs[..n])[pairs[n].0 := pairs[n].1]
    ensures |Present(pairs[..n + 1])| == |Present(pairs[..n])| + 1
    ensures DistinctKeys(Present(pairs[..n + 1])) <==>
      DistinctKeys(Present(pairs[..n])) && pairs[n].0 !in SetAll(pairs[..n])
  {
    var before := pairs[..n];
    assert pairs[..n + 1] == before + [pairs[n]] && pairs[..n + 1][..n] == before;
    SetAllPresent(before);
    NewKey(Present(before), pairs[n]);
  }

  lemma FieldBuilt(fields: map<Chars, Tree>, count: nat, ps: seq<Packet>, n: nat, pairs: seq<(Chars, Value)>, u: Tree)
    requires FieldsBuilt(fields, count, ps, n, pairs) && n < |ps| && !pairs[n].1.Nothing?
    requires Counted(u) <==> FieldThroughout(CountsRight, ps[n])
    requires FieldThroughout(IndicesOnce, ps[n]) ==> Content(u) == pairs[n].1
    ensures FieldsBuilt(fields[pairs[n].0 := u], count + 1, ps, n + 1, pairs)
  {
    hide SetAll, Present, FieldsTo, DistinctKeys, Counted, Content, FieldThroughout;
    var key := pairs[n].0;
    OneMoreTo(CountsRight, ps, n);
    OneMoreTo(IndicesOnce, ps, n);
    OnePairMore(pairs, n);
    assert Contents(fields[key := u]) == Contents(fields)[key := Content(u)];
    if key !in fields {
      OneMoreCountedField(fields, key, u);
    }
    hide Contents, AllCounted;
  }

  lemma OneMoreCountedField(fields: map<Chars, Tree>, key: Chars, u: Tree)
    requires key !in fields
    ensures AllCounted(fields[key := u]) <==> AllCounted(fields) && Counted(u)
  {
    hide Counted;
    var more := fields[key := u];
    assert forall k | k in fields :: k in more && more[k] == fields[k];
    assert key in more && more[key] == u;
  }

  /** The new tree may replace one under the same key. */
  lemma MoreFields(fields: map<Chars, Tree>, parts: set<object>, key: Chars, u: Tree)
    requires MadeFields(fields, Contents(fields), parts)
    requires Holds(u) && TreeShaped(u) && u.objects !! parts
    ensures MadeFields(fields[key := u], Contents(fields[key := u]), parts + u.objects)
  {
    hide Holds, Content, TreeShaped;
    var more := fields[key := u];
    forall k | k in more
      ensures more[k].objects <= parts + u.objects && Holds(more[k]) && TreeShaped(more[k])
    {
      assert k == key || more[k] == fields[k];
    }
    forall k, l | k in more && l in more && k != l ensures more[k].objects !! more[l].objects {
      assert (k == key || more[k].objects <= parts) && (l == key || more[l].objects <= parts);
    }
    hide Contents;
  }

  lemma MoreNodes(table: map<Chars, ElementObject>, fields: map<Chars, Tree>, key: Chars, u: Tree)
    requires SameNodes(table, fields)
    ensures SameNodes(table[key := u.node], fields[key := u])
  {
  }

  /** The key of a field and the packet behind it. */
  lemma FieldSplit(p: Packet, pair: (Chars, Value))
    requires p.tag != VOID && DecodeField(p) == Some(pair)
    ensures CString(p.payload) == Some(pair.0) && |pair.0| + 1 <= |p.payload|
    ensures DecodeValue(p.tag, p.payload[|pair.0| + 1..]) == Some(pair.1) && !pair.1.Nothing?
    ensures forall check :: FieldThroughout(check, p) <==> Throughout(check, p.tag, p.payload[|pair.0| + 1..])
  {
    hide CString, DecodeValue, Throughout;
    FieldParts(p);
  }

  /** The loop of buf_d_struct into a new struct: a key that comes again replaces
      what it had before and is counted again. */
  method UnpackFields(payload: seq<Byte>)
    returns (ok: bool, table: map<Chars, ElementObject>, count: nat, ghost fields: map<Chars, Tree>,
             ghost parts: set<object>)
    requires DecodeFields(payload).Some?
    ensures DecodePackets(payload).Some?
    ensures ok <==> FieldsTo(KeysOnce, DecodePackets(payload).value, |DecodePackets(payload).value|)
    ensures ok ==>
      var ps, pairs := DecodePackets(payload).value, DecodeFields(payload).value;
      && fresh(parts) && MadeFields(fields, Contents(fields), parts) && SameNodes(table, fields)
      && FieldsBuilt(fields, count, ps, |ps|, pairs)
    decreases |payload|, 0
  {
    hide Holds, Content, Contents, TreeShaped, MadeFields, SameNodes, DecodeField, DecodeFields, DecodeValue,
         DecodePackets, FieldsTo, FieldsBuilt, FieldThroughout, Throughout, Counted, CString, SetAll, Present;
    ghost var pairs := DecodeFields(payload).value;
    NothingRead(payload);
    ok, table, count, fields, parts := true, map[], 0, map[], {};
    NoFieldsBuilt(DecodePackets(payload).value, pairs);
    NoneTo(KeysOnce, DecodePackets(payload).value);
    NothingMade();
    NoNodes();
    if payload[..8] == Zeros(8) {
      ZeroCount(payload);
      return;
    }
    var types := ReadPackets(payload);
    var ps := types[..];
    for i := 0 to |ps|
      invariant ok && |ps| == |pairs| && fresh(parts) && MadeFields(fields, Contents(fields), parts)
      invariant SameNodes(table, fields) && FieldsTo(KeysOnce, ps, i) && FieldsBuilt(fields, count, ps, i, pairs)
    {
      FieldsOfPackets(payload, ps, i);
      OneMoreTo(KeysOnce, ps, i);
      if ps[i].tag == VOID {
        VoidPasses(KeysOnce, ps[i]);
        FieldSkipped(fields, count, ps, i, pairs);
        continue;
      }
      FieldSplit(ps[i], pairs[i]);
      var key := CString(ps[i].payload).value;
      var e;
      ghost var u;
      e, u := UnpackElement(ps[i].tag, ps[i].payload[|key| + 1..]);
      if e == null {
        ok := false;
        return;
      }
      FieldBuilt(fields, count, ps, i, pairs, u.value);
      MoreFields(fields, parts, key, u.value);
      MoreNodes(table, fields, key, u.value);
      table := table[key := e];
      count := count + 1;
      fields := fields[key := u.value];
      parts := parts + u.value.objects;
    }
  }

  lemma VoidPasses(check: Check, p: Packet)
    requires p.tag == VOID
    ensures FieldThroughout(check, p) && ItemThroughout(check, p)
  {
  }

  /** The count is the number of keys if and only if no key comes twice. */
  lemma FieldsComplete(fields: map<Chars, Tree>, count: nat, ps: seq<Packet>, pairs: seq<(Chars, Value)>)
    requires FieldsBuilt(fields, count, ps, |ps|, pairs)
    ensures fields.Keys == SetAll(pairs).Keys && |fields| == |SetAll(pairs)| <= count == |Present(pairs)|
    ensures count == |fields| <==> DistinctKeys(Present(pairs))
    ensures count == |fields| ==> (AllCounted(fields) <==> FieldsTo(CountsRight, ps, |ps|))
    ensures FieldsTo(IndicesOnce, ps, |ps|) ==> Contents(fields) == SetAll(pairs)
  {
    hide SetAll, Present, DistinctKeys, AllCounted, FieldsTo, Contents;
    assert pairs[..|ps|] == pairs;
    CountIsRight(pairs);
    SetAllPresent(pairs);
    SetAllSize(Present(pairs));
    assert |fields| == |fields.Keys| && |SetAll(pairs)| == |SetAll(pairs).Keys|;
  }

  method UnpackStruct(payload: seq<Byte>)
    returns (s: StructObject?, ghost count: nat, ghost fields: map<Chars, Tree>, ghost made: set<object>)
    requires DecodeFields(payload).Some?
    ensures s != null <==> FieldsThroughout(KeysOnce, STRUCT, payload)
    ensures s != null ==>
      var pairs := DecodeFields(payload).value;
      && fresh(made) && BodyHolds(StructBody(s, count, fields), made)
      && MadeFields(fields, Contents(fields), made - {s}) && count == |Present(pairs)|
      && (count == |fields| && AllCounted(fields) <==> FieldsThroughout(CountsRight, STRUCT, payload))
      && (FieldsThroughout(IndicesOnce, STRUCT, payload) ==> Contents(fields) == SetAll(pairs))
    decreases |payload|, 1
  {
    hide Holds, BodyHolds, Contents, MadeFields, SameNodes, SetAll, Present, DistinctKeys, DecodeFields, DecodePackets,
         FieldsTo, FieldsBuilt, FieldsThroughout, AllCounted;
    s := new StructObject();
    var ok;
    ghost var parts;
    ok, s.table, s.currentLen, fields, parts := UnpackFields(payload);
    count := s.currentLen;
    ghost var ps := DecodePackets(payload).value;
    FieldsAre(KeysOnce, STRUCT, payload, ps);
    FieldsAre(CountsRight, STRUCT, payload, ps);
    FieldsAre(IndicesOnce, STRUCT, payload, ps);
    if !ok {
      return null, 0, map[], {};
    }
    FieldsComplete(fields, count, ps, DecodeFields(payload).value);
    StructDone(s, fields, Contents(fields), parts);
    made := parts + {s};
    assert made - {s} == parts;
  }

  // ---------- arrays ----------

  /** The lookup table has exactly the nodes of these cells. */
  ghost predicate TableOf(table: seq<ElementObject?>, cells: map<nat, Tree>) {
    && (forall j | 0 <= j < |table| :: table[j] == if j in cells then cells[j].node else null)
    && forall j | j in cells :: j < |table|
  }

  /** d_array_set_internal: the table grows to one and a half times what is needed. */
  method SetCell(a: ArrayObject, index: nat, e: ElementObject, ghost cells: map<nat, Tree>, ghost t: Tree)
    requires TableOf(a.table, cells) && t.node == e
    modifies a
    ensures TableOf(a.table, cells[index := t]) && a.realSize == old(a.realSize) + 1
  {
    if index >= |a.table| {
      a.table := a.table + seq((index + 1) * 3 / 2 - |a.table|, _ => null);
    }
    a.realSize := a.realSize + 1;
    a.table := a.table[index := e];
  }

  /** Fields that are moved to the indices of their keys are cells. */
  lemma MovedFields(fields: map<Chars, Tree>, cells: map<nat, Tree>, parts: set<object>)
    requires MadeFields(fields, Contents(fields), parts) && Reindexed(cells, fields)
    ensures MadeFields<nat>(cells, Contents<nat>(cells), parts)
  {
    hide Atol, Holds, TreeShaped, Content;
    forall i | i in cells ensures cells[i].objects <= parts && Holds(cells[i]) && TreeShaped(cells[i]) {
      var k :| k in fields && Atol(k) == i && cells[i] == fields[k];
    }
    forall i, j | i in cells && j in cells && i != j ensures cells[i].objects !! cells[j].objects {
      var k :| k in fields && Atol(k) == i && cells[i] == fields[k];
      var l :| l in fields && Atol(l) == j && cells[j] == fields[l];
    }
  }

  /** Unless two keys read as one index, every field is among the cells. */
  lemma MovedCounts(fields: map<Chars, Tree>, cells: map<nat, Tree>)
    requires Reindexed(cells, fields)
    ensures |cells| == |fields| ==> (AllCounted<nat>(cells) <==> AllCounted(fields))
  {
    hide Atol, Counted;
    LengthIsRight(cells, fields);
    if |cells| == |fields| && AllCounted<nat>(cells) {
      forall k | k in fields ensures Counted(fields[k]) {
        var l :| l in fields && Atol(l) == Atol(k) && cells[Atol(k)] == fields[l];
        assert l == k;
      }
    }
    if AllCounted(fields) {
      forall i | i in cells ensures Counted(cells[i]) {
        var k :| k in fields && Atol(k) == i && cells[i] == fields[k];
      }
    }
  }

  lemma MovedContents(fields: map<Chars, Tree>, cells: map<nat, Tree>, pairs: seq<(Chars, Value)>)
    requires Reindexed(cells, fields) && Contents(fields) == SetAll(pairs) && DistinctIndices(SetAll(pairs))
    ensures Contents<nat>(cells) == SetAll(Indexed(pairs))
  {
    hide Atol, Content, SetAll;
    var values := Contents<nat>(cells);
    forall i | i in values ensures exists k :: k in SetAll(pairs) && Atol(k) == i && values[i] == SetAll(pairs)[k] {
      var k :| k in fields && Atol(k) == i && cells[i] == fields[k];
      assert k in SetAll(pairs);
    }
    forall k | k in SetAll(pairs) ensures Atol(k) in values {
      assert k in fields;
    }
    SetAllReindexed(pairs);
    SameCells(values, SetAll(Indexed(pairs)), SetAll(pairs));
  }

  lemma SameDistinct<V, W>(m: map<Chars, V>, n: map<Chars, W>)
    requires m.Keys == n.Keys
    ensures DistinctIndices(m) <==> DistinctIndices(n)
  {
    hide Atol;
    assert forall k :: k in m <==> k in n;
  }

  /** The loop of buf_d_array over as many keys as the unpacked struct counts; it fails
      where there is none left. */
  method MoveFields(a: ArrayObject, table: map<Chars, ElementObject>, count: nat, ghost fields: map<Chars, Tree>)
    returns (ok: bool, ghost cells: map<nat, Tree>)
    requires TableOf(a.table, map[]) && a.realSize == 0 && SameNodes(table, fields) && |fields| <= count
    modifies a
    ensures ok <==> count == |fields|
    ensures ok ==> TableOf(a.table, cells) && Reindexed(cells, fields) && a.realSize == |fields|
  {
    hide Atol, ReindexedTo, TableOf, Reindexed, DistinctIndices;
    var order := SlotOrder(table.Keys);
    OrderCovers(order, table.Keys);
    cells := map[];
    NothingReindexed(fields, order);
    for i := 0 to count
      invariant i <= |order| && TableOf(a.table, cells) && ReindexedTo(cells, fields, order, i) && a.realSize == i
    {
      if i == |order| {
        return false, cells;
      }
      var key := order[i];
      assert key in order;
      Containers.OneMoreCell(cells, fields, order, i);
      SetCell(a, Atol(key), table[key], cells, fields[key]);
      cells := cells[Atol(key) := fields[key]];
    }
    Containers.AllCells(cells, fields, order);
    ok := true;
  }

  lemma ArrayUnpacked(a: ArrayObject, cells: map<nat, Tree>, parts: set<object>)
    requires TableOf(a.table, cells) && MadeFields<nat>(cells, Contents<nat>(cells), parts) && a !in parts
    ensures BodyHolds(ArrayBody(a, |a.table|, a.realSize, cells), parts + {a})
  {
    hide MadeFields, BodyHolds;
    ArrayDone(a, cells, Contents<nat>(cells), parts);
  }

  lemma EmptyTable(table: seq<ElementObject?>)
    requires forall j | 0 <= j < |table| :: table[j] == null
    ensures TableOf(table, map[])
  {
  }

  /** What becomes of the unpacked fields of an array in which no key comes twice. */
  lemma FieldsMoved(fields: map<Chars, Tree>, cells: map<nat, Tree>, parts: set<object>, payload: seq<Byte>,
                    ps: seq<Packet>)
    requires DecodeFields(payload).Some? && DecodePackets(payload) == Some(ps)
    requires FieldsBuilt(fields, |fields|, ps, |ps|, DecodeFields(payload).value)
    requires MadeFields(fields, Contents(fields), parts) && Reindexed(cells, fields)
    ensures MadeFields<nat>(cells, Contents<nat>(cells), parts)
    ensures |fields| == |cells| && AllCounted<nat>(cells) <==> FieldsThroughout(CountsRight, ARRAY, payload)
    ensures FieldsThroughout(IndicesOnce, ARRAY, payload) ==>
      Contents<nat>(cells) == SetAll(Indexed(DecodeFields(payload).value))
  {
    hide Contents, MadeFields, SetAll, Present, DistinctKeys, DecodeFields, DecodePackets, FieldsTo, FieldsBuilt,
         FieldsThroughout, AllCounted, Reindexed, DistinctIndices;
    var pairs := DecodeFields(payload).value;
    FieldsAre(CountsRight, ARRAY, payload, ps);
    FieldsAre(IndicesOnce, ARRAY, payload, ps);
    FieldsComplete(fields, |fields|, ps, pairs);
    MovedFields(fields, cells, parts);
    MovedCounts(fields, cells);
    LengthIsRight(cells, fields);
    SameDistinct(fields, SetAll(pairs));
    if FieldsThroughout(IndicesOnce, ARRAY, payload) {
      MovedContents(fields, cells, pairs);
    }
  }

  /** There is an array if and only if, inside as well, no key of an array comes twice. */
  method UnpackArray(payload: seq<Byte>)
    returns (a: ArrayObject?, ghost count: nat, ghost cells: map<nat, Tree>, ghost made: set<object>)
    requires DecodeFields(payload).Some?
    ensures a != null <==> FieldsThroughout(KeysOnce, ARRAY, payload)
    ensures a != null ==>
      && fresh(made) && BodyHolds(ArrayBody(a, |a.table|, count, cells), made)
      && MadeFields<nat>(cells, Contents<nat>(cells), made - {a})
      && count == |SetAll(DecodeFields(payload).value)|
      && (count == |cells| && AllCounted<nat>(cells) <==> FieldsThroughout(CountsRight, ARRAY, payload))
      && (FieldsThroughout(IndicesOnce, ARRAY, payload) ==>
            Contents<nat>(cells) == SetAll(Indexed(DecodeFields(payload).value)))
    decreases |payload|, 1
  {
    hide Holds, BodyHolds, Contents, MadeFields, SameNodes, SetAll, Present, DistinctKeys, DecodeFields, DecodePackets,
         FieldsTo, FieldsBuilt, FieldsThroughout, AllCounted, Atol, TableOf, Reindexed, DistinctIndices,
         Content, Counted, Indexed;
    var ok, table, length;
    ghost var fields, parts;
    ok, table, length, fields, parts := UnpackFields(payload);
    ghost var ps, pairs := DecodePackets(payload).value, DecodeFields(payload).value;
    FieldsAre(KeysOnce, ARRAY, payload, ps);
    if !ok {
      return null, 0, map[], {};
    }
    FieldsComplete(fields, length, ps, pairs);
    SameNumber(table, fields);
    a := new ArrayObject(if length == 0 then 1 else length);
    EmptyTable(a.table);
    ok, cells := MoveFields(a, table, length, fields);
    if !ok {
      return null, 0, map[], {};
    }
    FieldsMoved(fields, cells, parts, payload, ps);
    ArrayUnpacked(a, cells, parts);
    count, made := a.realSize, parts + {a};
    assert made - {a} == parts;
  }

  lemma SameNumber(table: map<Chars, ElementObject>, fields: map<Chars, Tree>)
    requires SameNodes(table, fields)
    ensures |table| == |fields|
  {
    assert |table| == |table.Keys| && |fields| == |fields.Keys|;
  }

  // ---------- elements ----------

  /** The element whose packet starts b, in a container that gives it this tag. There
      is one if and only if no array in it has a key twice. Its counts are right if and
      only if no key and no index comes twice, and unless an index does it is the value
      that the bytes mean. */
  method UnpackElement(tag: Byte, b: seq<Byte>) returns (e: ElementObject?, ghost u: Option<Tree>)
    requires tag != VOID && DecodeValue(tag, b).Some?
    ensures e != null <==> Throughout(KeysOnce, tag, b)
    ensures e != null ==>
      && u.Some? && u.value.node == e && Holds(u.value) && TreeShaped(u.value) && fresh(u.value.objects)
      && (Counted(u.value) <==> Throughout(CountsRight, tag, b))
      && (Throughout(IndicesOnce, tag, b) ==> Content(u.value) == DecodeValue(tag, b).value)
    decreases |b|, 4
  {
    hide Holds, Content, TreeShaped, Counted, ThroughoutInner, DecodeInner, DecodePacket;
    var buf := ArrayOf(b);
    assert buf[0..] == b;
    var p, n := BufDrpc(buf, 0);
    if tag == STRUCT {
      e, u := UnpackStructElement(p);
    } else if tag == QUEUE {
      e, u := UnpackQueueElement(p);
    } else if tag == ARRAY {
      e, u := UnpackArrayElement(p);
    } else {
      e, u := UnpackBytes(tag, p);
    }
  }

  method UnpackBytes(tag: Byte, p: Packet) returns (e: ElementObject, ghost u: Option<Tree>)
    requires DecodeInner(tag, p).Some? && tag != STRUCT && tag != QUEUE && tag != ARRAY
    ensures u.Some? && fresh(u.value.objects) && Built(e, u.value, tag, p)
    ensures ThroughoutInner(KeysOnce, tag, p)
  {
    hide CString, DecodeInner, ThroughoutInner, Content, Counted, TreeShaped;
    SimpleInner(tag, p);
    var bytes := ArrayOf(p.payload);
    if tag == STR {
      TextFirst(p.payload);
      e := new ElementObject(tag, StrData(bytes));
      u := Some(Tree(e, tag, StrBody(bytes, CString(p.payload).value), {e, bytes}));
    } else if tag == SIZEDBUF {
      e := new ElementObject(tag, SizedData(bytes));
      u := Some(Tree(e, tag, SizedBody(bytes, p.payload), {e, bytes}));
    } else {
      var packed := new PackedObject(p.tag, bytes);
      e := new ElementObject(tag, PackedData(packed));
      u := Some(Tree(e, tag, PackedBody(packed, bytes, p), {e, packed, bytes}));
    }
    NoParts(u.value);
    assert Holds(u.value) && TreeShaped(u.value);
    assert Content(u.value) == DecodeInner(tag, p).value;
  }

  lemma SimpleInner(tag: Byte, p: Packet)
    requires DecodeInner(tag, p).Some? && tag != STRUCT && tag != QUEUE && tag != ARRAY
    ensures forall check :: ThroughoutInner(check, tag, p)
    ensures tag == STR ==>
      CString(p.payload).Some? && DecodeInner(tag, p).value == Text(CString(p.payload).value)
    ensures tag == SIZEDBUF ==> DecodeInner(tag, p).value == Buffer(p.payload)
    ensures tag != STR && tag != SIZEDBUF ==> DecodeInner(tag, p).value == Simple(tag, p)
  {
    hide CString;
  }

  lemma NoParts(t: Tree)
    requires t.body.PackedBody? || t.body.StrBody? || t.body.SizedBody?
    ensures Counted(t) && TreeShaped(t)
    ensures t.body.PackedBody? ==> Content(t) == Simple(t.tag, t.body.packet)
    ensures t.body.StrBody? ==> Content(t) == Text(t.body.text)
    ensures t.body.SizedBody? ==> Content(t) == Buffer(t.body.content)
  {
  }

  /** What a container's packet means, and what the checks ask of it. */
  lemma InnerOf(tag: Byte, p: Packet)
    requires DecodeInner(tag, p).Some?
    ensures tag == STRUCT ==>
      && DecodeFields(p.payload).Some?
      && DecodeInner(tag, p).value == Record(SetAll(DecodeFields(p.payload).value))
    ensures tag == ARRAY ==>
      && DecodeFields(p.payload).Some?
      && DecodeInner(tag, p).value == Cells(SetAll(Indexed(DecodeFields(p.payload).value)))
    ensures tag == QUEUE ==>
      && DecodeItems(p.payload).Some?
      && DecodeInner(tag, p).value == Items(DropNothing(DecodeItems(p.payload).value))
    ensures tag == STRUCT || tag == ARRAY ==>
      forall check :: ThroughoutInner(check, tag, p) <==> FieldsThroughout(check, tag, p.payload)
    ensures tag == QUEUE ==> forall check :: ThroughoutInner(check, tag, p) <==> ItemsThroughout(check, p.payload)
  {
    hide DecodeFields, DecodeItems, SetAll, DropNothing, FieldsThroughout, ItemsThroughout;
  }

  method UnpackStructElement(p: Packet) returns (e: ElementObject?, ghost u: Option<Tree>)
    requires DecodeInner(STRUCT, p).Some?
    ensures e != null <==> ThroughoutInner(KeysOnce, STRUCT, p)
    ensures e != null ==> u.Some? && fresh(u.value.objects) && Built(e, u.value, STRUCT, p)
    decreases |p.payload|, 2
  {
    hide Holds, BodyHolds, Content, Contents, TreeShaped, MadeFields, SetAll, DecodeInner, ThroughoutInner,
         FieldsThroughout, Counted, Present, DecodeFields;
    InnerOf(STRUCT, p);
    var s;
    ghost var count, fields, made;
    s, count, fields, made := UnpackStruct(p.payload);
    if s == null {
      return null, None;
    }
    e := new ElementObject(STRUCT, StructData(s));
    ghost var v := Tree(e, STRUCT, StructBody(s, count, fields), made + {e});
    StructElement(v, Contents(fields), made, s);
    CountedParts(v);
    u := Some(v);
  }

  method UnpackQueueElement(p: Packet) returns (e: ElementObject?, ghost u: Option<Tree>)
    requires DecodeInner(QUEUE, p).Some?
    ensures e != null <==> ThroughoutInner(KeysOnce, QUEUE, p)
    ensures e != null ==> u.Some? && fresh(u.value.objects) && Built(e, u.value, QUEUE, p)
    decreases |p.payload|, 2
  {
    hide Holds, BodyHolds, Content, ContentsOf, TreeShaped, MadeItems, DropNothing, DecodeInner, ThroughoutInner,
         ItemsThroughout, Counted, DecodeItems;
    InnerOf(QUEUE, p);
    var q;
    ghost var items, made;
    q, items, made := UnpackQueue(p.payload);
    if q == null {
      return null, None;
    }
    e := new ElementObject(QUEUE, QueueData(q));
    ghost var v := Tree(e, QUEUE, QueueBody(q, Entries(items)), made + {e});
    QueueElement(v, items, ContentsOf(items), made, q);
    CountedParts(v);
    CountedEntries(items);
    u := Some(v);
  }

  lemma CountedEntries(items: seq<Tree>)
    ensures var entries := Entries(items);
      AllCountedItems(items) <==> forall i | 0 <= i < |entries| && entries[i].Some? :: Counted(entries[i].value)
  {
    hide Counted;
    var entries := Entries(items);
    assert forall i | 0 <= i < |items| :: entries[i] == Some(items[i]);
    if forall i | 0 <= i < |entries| && entries[i].Some? :: Counted(entries[i].value) {
      forall i | 0 <= i < |items| ensures Counted(items[i]) {
        assert entries[i].Some? && Counted(entries[i].value);
      }
    }
  }

  method UnpackArrayElement(p: Packet) returns (e: ElementObject?, ghost u: Option<Tree>)
    requires DecodeInner(ARRAY, p).Some?
    ensures e != null <==> ThroughoutInner(KeysOnce, ARRAY, p)
    ensures e != null ==> u.Some? && fresh(u.value.objects) && Built(e, u.value, ARRAY, p)
    decreases |p.payload|, 2
  {
    hide Holds, BodyHolds, Content, Contents, TreeShaped, MadeFields, SetAll, DecodeInner, ThroughoutInner,
         FieldsThroughout, Counted, DecodeFields;
    InnerOf(ARRAY, p);
    var a;
    ghost var count, cells, made;
    a, count, cells, made := UnpackArray(p.payload);
    if a == null {
      return null, None;
    }
    e := new ElementObject(ARRAY, ArrayData(a));
    ghost var v := Tree(e, ARRAY, ArrayBody(a, |a.table|, count, cells), made + {e});
    ArrayElement(v, Contents<nat>(cells), made, a);
    CountedParts(v);
    u := Some(v);
  }

  // ---------- what a packed tree is like ----------

  /** Every key and index comes once, and only a queue has holes. */
  predicate Regular(l: Element) {
    match l
    case Hole => false
    case Packed(tag, packet) => tag != VOID && !PointerTag(tag) && Sound(packet)
    case Str(chars) => NoNul(chars)
    case SizedBuf(_) => true
    case Array(cells) =>
      DistinctCells(cells) && forall i | 0 <= i < |cells| :: cells[i].index < TWO_63 && Regular(cells[i].element)
    case Struct(fields) =>
      DistinctFields(fields) && forall i | 0 <= i < |fields| :: NoNul(fields[i].key) && Regular(fields[i].element)
    case Queue(items) => forall i | 0 <= i < |items| :: items[i].Hole? || Regular(items[i])
  }

  lemma {:induction false} RegularIsWellFormed(l: Element)
    requires Regular(l)
    ensures WellFormed(l) && !l.Hole?
  {
    match l
    case Array(cells) =>
      forall i | 0 <= i < |cells| ensures WellFormed(cells[i].element) && !cells[i].element.Hole? {
        RegularIsWellFormed(cells[i].element);
      }
    case Struct(fields) =>
      forall i | 0 <= i < |fields| ensures WellFormed(fields[i].element) && !fields[i].element.Hole? {
        RegularIsWellFormed(fields[i].element);
      }
    case Queue(items) =>
      forall i | 0 <= i < |items| ensures WellFormed(items[i]) {
        if !items[i].Hole? {
          RegularIsWellFormed(items[i]);
        }
      }
    case _ =>
  }

  lemma {:induction false} LayoutIsRegular(l: Element, t: Tree)
    requires IsLayout(l, t) && PackableTree(t)
    ensures Regular(l)
    decreases t
  {
    match t.body
    case StructBody(_, _, fields) =>
      forall x | 0 <= x < |l.fields| ensures NoNul(l.fields[x].key) && Regular(l.fields[x].element) {
        LayoutIsRegular(l.fields[x].element, fields[l.fields[x].key]);
      }
    case QueueBody(_, items) =>
      forall i | 0 <= i < |items| ensures l.items[i].Hole? || Regular(l.items[i]) {
        if items[i].Some? {
          LayoutIsRegular(l.items[i], items[i].value);
        }
      }
    case ArrayBody(_, _, _, cells) =>
      forall x | 0 <= x < |l.cells| ensures l.cells[x].index < TWO_63 && Regular(l.cells[x].element) {
        LayoutIsRegular(l.cells[x].element, cells[l.cells[x].index]);
      }
    case _ =>
  }

  /** The bytes of a regular element pass every check. */
  lemma {:induction false} RegularPasses(check: Check, l: Element)
    requires Regular(l) && Fits(l)
    ensures Throughout(check, TagOf(l), EncodePacket(Inner(l)))
    decreases l, 2
  {
    hide Regular, Inner, EncodePacket, ThroughoutInner, Sound;
    RegularIsWellFormed(l);
    TagIsNotVoid(l);
    PacketRoundTrip(Inner(l), []);
    assert EncodePacket(Inner(l)) + [] == EncodePacket(Inner(l));
    if l.Struct? {
      StructPasses(check, l);
    } else if l.Array? {
      ArrayPasses(check, l);
    } else if l.Queue? {
      QueuePasses(check, l);
    } else {
      SimplePasses(check, l);
    }
  }

  lemma SimplePasses(check: Check, l: Element)
    requires Regular(l) && !l.Struct? && !l.Array? && !l.Queue?
    ensures ThroughoutInner(check, TagOf(l), Inner(l))
  {
  }

  /** The packet of a field passes if its element does. */
  lemma FieldPasses(check: Check, key: Chars, l: Element, ps: seq<Packet>, i: nat)
    requires NoNul(key) && Regular(l) && i < |ps| && ps[i] == Wrapped(key + [NUL], l) && |EncodePackets(ps)| < TWO_64
    ensures FieldThroughout(check, ps[i])
    decreases l, 3
  {
    hide Regular, Inner, EncodePacket, EncodePackets, Throughout, CString, Fits;
    RegularIsWellFormed(l);
    PartsFit(key + [NUL], l, ps, i);
    CStringRoundTrip(key, EncodePacket(Inner(l)));
    assert ps[i].payload[|key| + 1..] == EncodePacket(Inner(l));
    RegularPasses(check, l);
  }

  lemma PairsPass(fields: seq<Field>)
    requires DistinctFields(fields) && forall i | 0 <= i < |fields| :: !fields[i].element.Hole?
    ensures DistinctKeys(Pairs(fields)) && Present(Pairs(fields)) == Pairs(fields)
  {
    hide Meaning;
    var pairs := Pairs(fields);
    forall i | 0 <= i < |pairs| ensures !pairs[i].1.Nothing? {
      MeansSomething(fields[i].element);
    }
    AllPresent(pairs);
  }

  lemma StructPasses(check: Check, l: Element)
    requires Regular(l) && Fits(l) && l.Struct?
    ensures ThroughoutInner(check, STRUCT, Inner(l))
    decreases l, 1
  {
    hide Inner, EncodePacket, EncodePackets, FieldThroughout, DecodeFields, DecodePackets, SetAll, Present, Wrapped,
         DistinctKeys, Sound, Meaning, WellFormed, CString, Throughout;
    RegularIsWellFormed(l);
    InnerPackets(l);
    FieldsRoundTrip(l, []);
    forall i | 0 <= i < |l.fields| ensures !l.fields[i].element.Hole? {
      RegularIsWellFormed(l.fields[i].element);
    }
    PairsPass(l.fields);
    FieldPacketsPass(check, l.fields, l);
  }

  lemma FieldPacketsPass(check: Check, fields: seq<Field>, bound: Element)
    requires |EncodePackets(FieldPackets(fields))| < TWO_64
    requires forall i | 0 <= i < |fields| ::
      NoNul(fields[i].key) && Regular(fields[i].element) && fields[i].element < bound
    ensures var b := EncodePackets(FieldPackets(fields));
      DecodePackets(b).Some? && forall i | 0 <= i < |DecodePackets(b).value| ::
        FieldThroughout(check, DecodePackets(b).value[i])
    decreases bound, 0
  {
    hide Regular, EncodePackets, FieldThroughout, DecodePackets, Wrapped, Sound;
    var ps := FieldPackets(fields);
    forall i | 0 <= i < |ps| ensures Sound(ps[i]) && FieldThroughout(check, ps[i]) {
      RegularIsWellFormed(fields[i].element);
      WrappedIsSound(fields[i].key + [NUL], fields[i].element);
      FieldPasses(check, fields[i].key, fields[i].element, ps, i);
    }
    PacketsRoundTrip(ps, []);
    assert EncodePackets(ps) + [] == EncodePackets(ps);
  }

  lemma ArrayPasses(check: Check, l: Element)
    requires Regular(l) && Fits(l) && l.Array?
    ensures ThroughoutInner(check, ARRAY, Inner(l))
    decreases l, 1
  {
    hide Inner, EncodePackets, FieldThroughout, DecodeFields, DecodePackets, SetAll, Present, DistinctKeys,
         DistinctIndices, Meaning, WellFormed, Decimal, Atol, FieldPackets, CString, Throughout;
    RegularIsWellFormed(l);
    InnerPackets(l);
    CellsReadBack(l.cells, []);
    assert Inner(l).payload + [] == Inner(l).payload;
    CellKeysDistinct(l.cells);
    forall i | 0 <= i < |l.cells| ensures NoNul(AsFields(l.cells)[i].key) {
      DecimalRoundTrip(l.cells[i].index);
    }
    FieldPacketsPass(check, AsFields(l.cells), l);
  }

  lemma QueuePasses(check: Check, l: Element)
    requires Regular(l) && Fits(l) && l.Queue?
    ensures ThroughoutInner(check, QUEUE, Inner(l))
    decreases l, 1
  {
    hide Inner, EncodePacket, EncodePackets, ItemThroughout, DecodePackets, Wrapped, Sound, Throughout;
    InnerPackets(l);
    var ps := ItemPackets(l.items);
    forall i | 0 <= i < |ps| ensures Sound(ps[i]) && ItemThroughout(check, ps[i]) {
      ItemPasses(check, l.items[i], ps, i);
    }
    PacketsRoundTrip(ps, []);
    assert EncodePackets(ps) + [] == EncodePackets(ps);
  }

  lemma ItemPasses(check: Check, l: Element, ps: seq<Packet>, i: nat)
    requires l.Hole? || Regular(l)
    requires i < |ps| && ps[i] == Wrapped([], l) && |EncodePackets(ps)| < TWO_64
    ensures Sound(ps[i]) && ItemThroughout(check, ps[i])
    decreases l, 3
  {
    hide Regular, Inner, EncodePacket, EncodePackets, Throughout, Fits;
    if !l.Hole? {
      RegularIsWellFormed(l);
      WrappedIsSound([], l);
      PartsFit([], l, ps, i);
      assert [] + EncodePacket(Inner(l)) == EncodePacket(Inner(l));
      RegularPasses(check, l);
    }
  }

  // ---------- from heap to heap ----------

  /** A value on the heap, packed and unpacked: the result is equal to it but for null
      entries, made of new objects only and a tree of its own, with right counts, and
      the source is as it was, with every queue in it rotated back. */
  method SendElement(e: ElementObject, ghost t: Tree) returns (c: ElementObject?, ghost u: Option<Tree>)
    requires t.node == e && Holds(t) && PackableTree(t) && forall l | IsLayout(l, t) :: Fits(l)
    modifies t.objects
    ensures unchanged(t.objects)
    ensures c != null && u.Some? && Copied(c, u.value, t) && fresh(u.value.objects)
  {
    hide BodyHolds, Content, Meaning, TreeShaped, IsLayout, PackableTree, Fits, Regular, WellFormed, Throughout,
         DecodeValue, Counted;
    var w;
    ghost var l;
    w, l := PackWrapped([], e, t);
    LayoutMeans(l, t);
    LayoutIsRegular(l, t);
    forall check ensures Throughout(check, TagOf(l), EncodePacket(Inner(l))) {
      RegularPasses(check, l);
    }
    TagIsNotVoid(l);
    RoundTrip(l, []);
    assert [] + EncodePacket(Inner(l)) == EncodePacket(Inner(l)) == EncodePacket(Inner(l)) + [];
    c, u := UnpackElement(w.tag, w.payload);
  }
}
