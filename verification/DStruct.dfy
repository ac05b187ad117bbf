/** struct d_struct of drpc_struct.c: a hashtable of elements, a count of them that
    is kept by hand, and the copies of the keys. */
module DStructs {
  import opened Bytes
  import opened Wrappers
  import opened HashTable
  import opened WireBuffers

  /** The arguments of d_struct_set: a null pointer, a type that it does not
      take, or a value of one that it does. */
  datatype Native<V> = NullPointer | Unsupported | Native(value: V)

  /** The map after d_struct_set. */
  ghost function AfterSet<V>(m: map<Key, V>, key: Key, native: Native<V>): map<Key, V> {
    match native
    case NullPointer => m
    case Unsupported => m - {key}
    case Native(value) => m[key := value]
  }

  datatype Op<V> =
    | SetField(key: Key, native: Native<V>)
    | GetField(key: Key, tag: Byte)
    | UnlinkField(key: Key)
    | RemoveField(key: Key)

  /** A null pointer is turned away before the table is looked at. */
  predicate Probes<V>(op: Op<V>) {
    !(op.SetField? && op.native.NullPointer?)
  }

  datatype Reply<V> = NoReply | Found(value: Option<V>) | Status(failed: bool)

  /** What a struct as a map does; packed and tagOf tell how a value is kept. */
  ghost function AfterOp<V>(m: map<Key, V>, op: Op<V>, packed: V -> bool): map<Key, V> {
    match op
    case SetField(key, native) => AfterSet(m, key, native)
    case GetField(_, _) => m
    case UnlinkField(key) => if key in m && !packed(m[key]) then m - {key} else m
    case RemoveField(key) => m - {key}
  }

  ghost function ReplyTo<V>(m: map<Key, V>, op: Op<V>, packed: V -> bool, tagOf: V -> Byte): Reply<V> {
    match op
    case SetField(_, _) => NoReply
    case GetField(key, tag) => Found(if key in m && tagOf(m[key]) == tag then Some(m[key]) else None)
    case UnlinkField(key) => Status(key !in m || packed(m[key]))
    case RemoveField(key) => Status(key !in m)
  }

  ghost function FinalMap<V>(m: map<Key, V>, ops: seq<Op<V>>, packed: V -> bool): map<Key, V> {
    if ops == [] then m else AfterOp(FinalMap(m, ops[..|ops| - 1], packed), ops[|ops| - 1], packed)
  }

  /** Each reply is that of the map which the operations before it made. */
  ghost predicate RunExplained<V>(m: map<Key, V>, ops: seq<Op<V>>, replies: seq<Reply<V>>,
                                  packed: V -> bool, tagOf: V -> Byte)
  {
    |replies| <= |ops| &&
    forall i | 0 <= i < |replies| :: replies[i] == ReplyTo(FinalMap(m, ops[..i], packed), ops[i], packed, tagOf)
  }

  lemma RunMore<V>(m: map<Key, V>, ops: seq<Op<V>>, replies: seq<Reply<V>>, reply: Reply<V>,
                     packed: V -> bool, tagOf: V -> Byte)
    requires RunExplained(m, ops, replies, packed, tagOf) && |replies| < |ops|
    requires reply == ReplyTo(FinalMap(m, ops[..|replies|], packed), ops[|replies|], packed, tagOf)
    ensures RunExplained(m, ops, replies + [reply], packed, tagOf)
    ensures FinalMap(m, ops[..|replies| + 1], packed)
         == AfterOp(FinalMap(m, ops[..|replies|], packed), ops[|replies|], packed)
  {
    hide ReplyTo, AfterOp;
    assert ops[..|replies| + 1][..|replies|] == ops[..|replies|];
  }

  /** The map behind a run, operation by operation. */
  lemma {:induction false} RunCases<V>(m: map<Key, V>, ops: seq<Op<V>>, op: Op<V>, packed: V -> bool, tagOf: V -> Byte)
    ensures var n, next := FinalMap(m, ops, packed), FinalMap(m, ops + [op], packed);
      var reply := ReplyTo(n, op, packed, tagOf);
      && FinalMap(m, [], packed) == m
      && (op.SetField? && op.native.NullPointer? ==> next == n)
      && (op.SetField? && op.native.Unsupported? ==> next == n - {op.key})
      && (op.SetField? && op.native.Native? ==> next == n[op.key := op.native.value])
      && (op.GetField? ==> next == n)
      && (op.GetField? && op.key in n && tagOf(n[op.key]) == op.tag ==> reply == Found(Some(n[op.key])))
      && (op.GetField? && (op.key !in n || tagOf(n[op.key]) != op.tag) ==> reply == Found(None))
      && (op.UnlinkField? && op.key in n && !packed(n[op.key]) ==> reply == Status(false) && next == n - {op.key})
      && (op.UnlinkField? && (op.key !in n || packed(n[op.key])) ==> reply == Status(true) && next == n)
      && (op.RemoveField? ==> next == n - {op.key} && reply == Status(op.key !in n))
  {
    assert (ops + [op])[..|ops|] == ops;
  }

  lemma RunNone<V>(m: map<Key, V>, ops: seq<Op<V>>, packed: V -> bool, tagOf: V -> Byte)
    ensures RunExplained(m, ops, [], packed, tagOf) && FinalMap(m, ops[..0], packed) == m
  {
  }

  class DStruct<V(0)> {
    const Table: Hashtable<V>
    const IsPacked: V -> bool
    const Type: V -> Byte
    var currentLen: nat
    var heapKeys: seq<Key>

    ghost predicate Valid()
      reads this, Table, Table.body
    {
      Table.Valid() && currentLen == |Table.Map|
    }

    ghost function Map(): map<Key, V>
      reads this, Table
    {
      Table.Map
    }

    constructor (isPacked: V -> bool, typeOf: V -> Byte)
      ensures Valid() && fresh(Table) && fresh(Table.body) && Map() == map[] && NoDead(Table.body[..])
      ensures IsPacked == isPacked && Type == typeOf && heapKeys == []
    {
      Table := new Hashtable<V>();
      IsPacked, Type := isPacked, typeOf;
      currentLen, heapKeys := 0, [];
    }

    /** The element is first put into the table, then filled in; one of a type
        that is not taken is removed again. */
    method Set(key: Key, native: Native<V>)
      requires Valid() && (native.NullPointer? || Table.ProbeEnds(key))
      modifies this, Table, Table.body
      ensures Valid() && (Table.body == old(Table.body) || fresh(Table.body))
      ensures Map() == AfterSet(old(Map()), key, native)
      ensures native.NullPointer? ==> Map() == old(Map())
      ensures native.Unsupported? ==> Map() == old(Map()) - {key}
      ensures native.Native? ==> Map() == old(Map())[key := native.value]
      ensures heapKeys == if native.NullPointer? then old(heapKeys) else old(heapKeys) + [key]
    {
      hide Represents, HasNull, NoDead, AddFresh, Nulls;
      if native.NullPointer? {
        return;
      }
      heapKeys := heapKeys + [key];
      ghost var m := Map();
      Claim(key);
      if native.Unsupported? {
        Table.Remove(key);
        return;
      }
      assert Map()[key := native.value] == (Map() - {key})[key := native.value];
      assert m[key := native.value] == (m - {key})[key := native.value];
      Table.SetUnlocked(key, native.value);
      currentLen := currentLen + 1;
    }

    /** Finds the element of the key or adds one that is not filled in yet; the
        element is not counted afterwards. */
    method Claim(key: Key)
      requires Valid() && Table.ProbeEnds(key)
      modifies this`currentLen, Table, Table.body
      ensures Table.Valid() && (Table.body == old(Table.body) || fresh(Table.body))
      ensures key in Map() && Map() - {key} == old(Map()) - {key} && currentLen + 1 == |Map()|
    {
      hide Represents, HasNull, NoDead, AddFresh, Nulls;
      var element := Table.Get(key);
      if element.None? {
        var unset: V := *;
        Table.SetUnlocked(key, unset);
      } else {
        currentLen := currentLen - 1;
      }
    }

    /** None is the error return 1. */
    method Get(key: Key, tag: Byte) returns (value: Option<V>)
      requires Valid() && Table.ProbeEnds(key)
      ensures value == if key in Map() && Type(Map()[key]) == tag then Some(Map()[key]) else None
    {
      value := Table.Get(key);
      if value.Some? && Type(value.value) != tag {
        value := None;
      }
    }

    /** Only elements that are kept as pointers are unlinked. */
    method Unlink(key: Key) returns (failed: bool)
      requires Valid() && Table.ProbeEnds(key)
      modifies this, Table, Table.body
      ensures Valid() && Table.body == old(Table.body) && heapKeys == old(heapKeys)
      ensures failed <==> key !in old(Map()) || IsPacked(old(Map())[key])
      ensures Map() == if failed then old(Map()) else old(Map()) - {key}
    {
      hide Represents, HasNull, NoDead, AddFresh, Nulls;
      var element := Table.Get(key);
      if element.Some? && !IsPacked(element.value) {
        Table.Remove(key);
        currentLen := currentLen - 1;
        return false;
      }
      return true;
    }

    method Remove(key: Key) returns (failed: bool)
      requires Valid() && Table.ProbeEnds(key)
      modifies this, Table, Table.body
      ensures Valid() && Table.body == old(Table.body) && heapKeys == old(heapKeys)
      ensures failed <==> key !in old(Map())
      ensures Map() == old(Map()) - {key}
    {
      hide Represents, HasNull, NoDead, AddFresh, Nulls;
      var element := Table.Get(key);
      if element.Some? {
        Table.Remove(key);
        currentLen := currentLen - 1;
        return false;
      }
      assert Map() - {key} == Map();
      return true;
    }

    method Perform(op: Op<V>) returns (reply: Reply<V>)
      requires Valid() && (Probes(op) ==> Table.ProbeEnds(op.key))
      modifies this, Table, Table.body
      ensures Valid() && (Table.body == old(Table.body) || fresh(Table.body))
      ensures Map() == AfterOp(old(Map()), op, IsPacked) && reply == ReplyTo(old(Map()), op, IsPacked, Type)
    {
      hide Represents, HasNull;
      match op {
        case SetField(key, native) =>
          Set(key, native);
          reply := NoReply;
        case GetField(key, tag) =>
          var value := Get(key, tag);
          reply := Found(value);
        case UnlinkField(key) =>
          var failed := Unlink(key);
          reply := Status(failed);
        case RemoveField(key) =>
          var failed := Remove(key);
          reply := Status(failed);
      }
    }

    /** In every run the count is the number of fields, up to an operation for
        whose key probing would never end. */
    method Run(ops: seq<Op<V>>) returns (replies: seq<Reply<V>>)
      requires Valid()
      modifies this, Table, Table.body
      ensures Valid() && RunExplained(old(Map()), ops, replies, IsPacked, Type)
      ensures Map() == FinalMap(old(Map()), ops[..|replies|], IsPacked)
      ensures |replies| < |ops| ==> Probes(ops[|replies|]) && !Table.ProbeEnds(ops[|replies|].key)
    {
      hide Represents, ReplyTo, AfterOp, HasNull, RunExplained, FinalMap;
      ghost var m := Map();
      replies := [];
      RunNone(m, ops, IsPacked, Type);
      while |replies| < |ops|
        invariant Valid() && (Table.body == old(Table.body) || fresh(Table.body))
        invariant |replies| <= |ops| && RunExplained(m, ops, replies, IsPacked, Type)
        invariant Map() == FinalMap(m, ops[..|replies|], IsPacked)
      {
        var op := ops[|replies|];
        ProbingEnds(Table.body[..], Table.Map, Table.Where, op.key);
        if Probes(op) && forall i | 0 <= i < Table.body.Length :: !Stops(Table.body[i], op.key) {
          return;
        }
        var reply := Perform(ops[|replies|]);
        RunMore(m, ops, replies, reply, IsPacked, Type);
        replies := replies + [reply];
      }
    }

    /** d_struct_get_fields: the keys in slot order, in an array of as many places as
        the struct counts fields. Places that are left over stay null. */
    method GetFields() returns (keys: array<Option<Key>>)
      requires Table.Valid() && |Map()| <= currentLen
      ensures fresh(keys) && keys.Length == currentLen
      ensures var live := KeysOf(EntriesOf(Table.body[..]));
        && |live| == |Map()| && (forall k :: k in live <==> k in Map())
        && forall j | 0 <= j < keys.Length :: keys[j] == if j < |live| then Some(live[j]) else None
    {
      hide Represents, EntriesOf, Moved;
      keys := new Option<Key>[currentLen](_ => None);
      ghost var b := Table.body[..];
      var j := 0;
      NoEntries(b);
      for i := 0 to Table.capacity
        invariant j == |EntriesOf(b[..i])| <= currentLen
        invariant forall x | 0 <= x < keys.Length ::
          keys[x] == if x < j then Some(KeysOf(EntriesOf(b[..i]))[x]) else None
      {
        MoreEntries(Table, i);
        if Table.body[i].Live? {
          keys[j] := Some(Table.body[i].key);
          j := j + 1;
        }
      }
      assert b[..|b|] == b;
      AllEntries(b, Table.Map, Table.Where);
    }
  }

  // ---------- the live entries ----------

  function EntriesOf<V>(b: seq<Entry<V>>): seq<(Key, V)> {
    if b == [] then []
    else
      var e := b[|b| - 1];
      EntriesOf(b[..|b| - 1]) + if e.Live? then [(e.key, e.value)] else []
  }

  function KeysOf<V>(entries: seq<(Key, V)>): seq<Key> {
    seq(|entries|, i requires 0 <= i < |entries| => entries[i].0)
  }

  lemma NoEntries<V>(b: seq<Entry<V>>)
    ensures EntriesOf(b[..0]) == []
  {
  }

  lemma {:induction false} EntriesAreMoved<V>(b: seq<Entry<V>>, m: map<Key, V>, w: map<Key, nat>, i: nat)
    requires Represents(b, m, w) && i <= |b|
    ensures |EntriesOf(b[..i])| == |Moved(m, w, i)|
    ensures forall k, v :: (k, v) in EntriesOf(b[..i]) <==> k in Moved(m, w, i) && Moved(m, w, i)[k] == v
    ensures forall x, y | 0 <= x < y < |EntriesOf(b[..i])| :: EntriesOf(b[..i])[x].0 != EntriesOf(b[..i])[y].0
  {
    hide Represents, Moved;
    if i == 0 {
      MovedAll(b, m, w);
    } else {
      EntriesAreMoved(b, m, w, i - 1);
      assert b[..i][..i - 1] == b[..i - 1];
      if b[i - 1].Live? {
        MovedLive(b, m, w, i - 1);
        var e := EntriesOf(b[..i - 1]);
        forall x | 0 <= x < |e| ensures e[x].0 != b[i - 1].key {
          var (k, v) := e[x];
          assert (k, v) in e && k in Moved(m, w, i - 1);
        }
      } else {
        MovedOther(b, m, w, i - 1);
      }
    }
  }

  /** The live entries are the map, each once. */
  lemma AllEntries<V>(b: seq<Entry<V>>, m: map<Key, V>, w: map<Key, nat>)
    requires Represents(b, m, w)
    ensures |EntriesOf(b)| == |m|
    ensures forall k, v :: (k, v) in EntriesOf(b) <==> k in m && m[k] == v
    ensures forall x, y | 0 <= x < y < |m| :: EntriesOf(b)[x].0 != EntriesOf(b)[y].0
    ensures forall k :: k in KeysOf(EntriesOf(b)) <==> k in m
  {
    hide Represents, Moved, EntriesOf;
    EntriesAreMoved(b, m, w, |b|);
    MovedAll(b, m, w);
    assert b[..|b|] == b;
    var e := EntriesOf(b);
    forall k | k in m ensures k in KeysOf(e) {
      assert (k, m[k]) in e;
      var x :| 0 <= x < |e| && e[x] == (k, m[k]);
      assert KeysOf(e)[x] == k;
    }
    forall k | k in KeysOf(e) ensures k in m {
      var x :| 0 <= x < |e| && e[x].0 == k;
      assert (k, e[x].1) in e;
    }
  }

  /** One more slot: a live one still has a place in an array of a place a key. */
  lemma MoreEntries<V>(t: Hashtable<V>, i: nat)
    requires t.Valid() && i < t.capacity
    ensures var b, e := t.body[..], t.body[i];
      EntriesOf(b[..i + 1]) == if e.Live? then EntriesOf(b[..i]) + [(e.key, e.value)] else EntriesOf(b[..i])
    ensures |EntriesOf(t.body[..][..i + 1])| <= |t.Map|
  {
    hide Represents, Moved;
    var b := t.body[..];
    assert b[..i + 1][..i] == b[..i];
    EntriesAreMoved(b, t.Map, t.Where, i + 1);
    SubsetSize(Moved(t.Map, t.Where, i + 1).Keys, t.Map.Keys);
  }
}
