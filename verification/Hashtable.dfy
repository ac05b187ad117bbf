/** The linear-probing hashtable of hashtable.c, with tombstones and a resize
    that reinserts through the setter that called it. */
module HashTable {
  import opened Bytes
  import opened Wrappers

  const INITIAL_CAPACITY: nat := 4

  /** A C string without its terminator. */
  type Key = seq<Byte>

  /** The three states of a slot's key: null, the 0xDEAD mark, or a string. */
  datatype Entry<+V> = Null | Dead | Live(key: Key, value: V)

  /** The djb k = 33 hash on 64 bits; a char is signed. */
  function Hash(key: Key): (h: nat)
    ensures h < TWO_64
  {
    if key == [] then 5381
    else
      var n := |key| - 1;
      var c := if ValueOf(key[n]) < 128 then ValueOf(key[n]) else ValueOf(key[n]) - 256;
      (Hash(key[..n]) * 33 + c) % TWO_64
  }

  /** Each character adds its signed value to 33 times the hash before it. */
  lemma HashOneMore(key: Key, c: Byte)
    ensures Hash([]) == 5381
    ensures var signed := c as int - if c as int < 128 then 0 else 256;
      Hash(key + [c]) == (33 * Hash(key) + signed) % 0x1_0000_0000_0000_0000
  {
    assert (key + [c])[..|key|] == key;
  }

  // ---------- probing ----------

  function Start(key: Key, n: nat): (i: nat)
    requires n > 0
    ensures i < n
  {
    Hash(key) % n
  }

  /** The slot k steps after start, going round a table of n slots. */
  function Around(start: nat, k: nat, n: nat): (i: nat)
    requires start < n && k <= n
    ensures i < n
  {
    if start + k < n then start + k else start + k - n
  }

  function Steps(start: nat, i: nat, n: nat): (k: nat)
    requires start < n && i < n
    ensures k < n && Around(start, k, n) == i
  {
    if start <= i then i - start else i + n - start
  }

  /** Slot j lies on the way from start to slot i, which is not counted. */
  ghost predicate OnTheWay(start: nat, j: nat, i: nat) {
    if start <= i then start <= j < i else start <= j || j < i
  }

  function NextSlot(i: nat, n: nat): (next: nat)
    requires i < n
    ensures next == if i + 1 < n then i + 1 else 0
  {
    (i + 1) % n
  }

  predicate Stops<V>(e: Entry<V>, key: Key) {
    e.Null? || (e.Live? && e.key == key)
  }

  predicate HasNull<V>(b: seq<Entry<V>>) {
    exists i :: 0 <= i < |b| && b[i].Null?
  }

  ghost predicate NoDead<V>(b: seq<Entry<V>>) {
    forall i | 0 <= i < |b| :: !b[i].Dead?
  }

  ghost function Nulls<V>(b: seq<Entry<V>>): (n: nat)
    ensures n <= |b|
  {
    if b == [] then 0 else Nulls(b[..|b| - 1]) + if b[|b| - 1].Null? then 1 else 0
  }

  /** The slots hold exactly the map m, each key where w says, and no null slot
      lies on the probe path of a live key. */
  ghost predicate Represents<V>(b: seq<Entry<V>>, m: map<Key, V>, w: map<Key, nat>) {
    && |b| > 0 && m.Keys == w.Keys
    && (forall k | k in m :: w[k] < |b| && b[w[k]] == Live(k, m[k]))
    && (forall i | 0 <= i < |b| && b[i].Live? :: b[i].key in m && w[b[i].key] == i)
    && (forall i, j | 0 <= i < |b| && 0 <= j < |b| && b[i].Live? && OnTheWay(Start(b[i].key, |b|), j, i) ::
          !b[j].Null?)
  }

  /** Where probing for key ends, if it ends. */
  ghost predicate FoundAt<V>(b: seq<Entry<V>>, key: Key, i: nat)
    requires |b| > 0
  {
    && i < |b| && Stops(b[i], key)
    && forall j | 0 <= j < |b| && OnTheWay(Start(key, |b|), j, i) :: !Stops(b[j], key)
  }

  /** The slot k places after the remainder of the hash, in a table of n slots. */
  function Place(key: Key, k: nat, n: nat): (i: nat)
    requires k < n
    ensures i < n
  {
    var start := Hash(key) % n;
    if start + k < n then start + k else start + k - n
  }

  /** A slot with a mark or with another key. */
  predicate Passed<V>(e: Entry<V>, key: Key) {
    e.Dead? || (e.Live? && e.key != key)
  }

  /** Probing starts at the remainder of the hash and goes up one slot at a time, round
      the end of the table, to the first null slot or the key. */
  lemma ProbedInOrder<V>(b: seq<Entry<V>>, key: Key, i: nat) returns (k: nat)
    requires |b| > 0 && FoundAt(b, key, i)
    ensures k < |b| && i == Place(key, k, |b|)
    ensures b[i].Null? || (b[i].Live? && b[i].key == key)
    ensures forall j | 0 <= j < k :: Passed(b[Place(key, j, |b|)], key)
  {
    hide Hash;
    k := Steps(Start(key, |b|), i, |b|);
    forall j | 0 <= j < k ensures Passed(b[Place(key, j, |b|)], key) {
      assert OnTheWay(Start(key, |b|), Place(key, j, |b|), i);
      assert !Stops(b[Place(key, j, |b|)], key);
    }
  }

  lemma FoundIsEntry<V>(b: seq<Entry<V>>, m: map<Key, V>, w: map<Key, nat>, key: Key, i: nat)
    requires Represents(b, m, w) && FoundAt(b, key, i)
    ensures key in m ==> i == w[key] && b[i] == Live(key, m[key])
    ensures key !in m ==> b[i].Null?
  {
    if key in m && b[i].Null? {
      assert Stops(b[w[key]], key);
    }
  }

  /** One more slot passed without stopping, short of the last. */
  lemma ProbeStep<V>(b: seq<Entry<V>>, key: Key, start: nat, k: nat, last: nat)
    requires k < last < |b| && start < |b| && !Stops(b[Around(start, k, |b|)], key)
    requires forall j | 0 <= j < |b| && OnTheWay(start, j, Around(start, k, |b|)) :: !Stops(b[j], key)
    ensures forall j | 0 <= j < |b| && OnTheWay(start, j, Around(start, k + 1, |b|)) :: !Stops(b[j], key)
  {
  }

  /** Storing a key at the slot where probing ended. */
  lemma StoreRepresents<V>(b: seq<Entry<V>>, m: map<Key, V>, w: map<Key, nat>, key: Key, i: nat, v: V)
    requires Represents(b, m, w) && FoundAt(b, key, i)
    ensures Represents(b[i := Live(key, v)], m[key := v], w[key := i])
  {
    FoundIsEntry(b, m, w, key, i);
  }

  lemma RemoveRepresents<V>(b: seq<Entry<V>>, m: map<Key, V>, w: map<Key, nat>, key: Key)
    requires Represents(b, m, w) && key in m
    ensures Represents(b[w[key] := Dead], m - {key}, w - {key})
    ensures |m - {key}| == |m| - 1
  {
    assert (m - {key}).Keys == m.Keys - {key};
  }

  // ---------- counting ----------

  lemma {:induction false} NullsOfUpdate<V>(b: seq<Entry<V>>, i: nat, e: Entry<V>)
    requires i < |b|
    ensures Nulls(b[i := e]) + (if b[i].Null? then 1 else 0) == Nulls(b) + (if e.Null? then 1 else 0)
  {
    var n := |b| - 1;
    if i == n {
      assert b[i := e][..n] == b[..n];
    } else {
      assert b[i := e][..n] == b[..n][i := e];
      NullsOfUpdate(b[..n], i, e);
    }
  }

  lemma {:induction false} NullsPositive<V>(b: seq<Entry<V>>)
    ensures Nulls(b) > 0 <==> HasNull(b)
  {
    if b != [] {
      var n := |b| - 1;
      NullsPositive(b[..n]);
      if HasNull(b[..n]) {
        var i :| 0 <= i < n && b[..n][i].Null?;
        assert b[i].Null?;
      }
      if HasNull(b) {
        var i :| 0 <= i < |b| && b[i].Null?;
        if i < n { assert b[..n][i].Null?; }
      }
    }
  }

  /** The keys of the first n slots, when all of them are live. */
  lemma {:induction false} KeysOfPrefix<V>(b: seq<Entry<V>>, m: map<Key, V>, w: map<Key, nat>, n: nat)
    returns (keys: set<Key>)
    requires Represents(b, m, w) && n <= |b|
    requires forall i | 0 <= i < n :: b[i].Live?
    ensures keys <= m.Keys && |keys| == n && forall k | k in keys :: w[k] < n
  {
    if n == 0 {
      keys := {};
    } else {
      keys := KeysOfPrefix(b, m, w, n - 1);
      assert b[n - 1].key !in keys;
      keys := keys + {b[n - 1].key};
    }
  }

  lemma {:induction false} SubsetSize<T>(a: set<T>, b: set<T>)
    requires a <= b
    ensures |a| <= |b|
  {
    if a != {} {
      var x :| x in a;
      SubsetSize(a - {x}, b - {x});
    }
  }

  /** Without tombstones a table with fewer keys than slots has a null slot. */
  lemma RoomLeft<V>(b: seq<Entry<V>>, m: map<Key, V>, w: map<Key, nat>)
    requires Represents(b, m, w) && NoDead(b) && |m| < |b|
    ensures HasNull(b)
  {
    if !HasNull(b) {
      var keys := KeysOfPrefix(b, m, w, |b|);
      SubsetSize(keys, m.Keys);
    }
  }

  // ---------- how size and capacity evolve ----------

  /** Size and capacity after adding a new key to n others. */
  ghost function AddFresh(size: nat, capacity: nat, n: nat): (nat, nat)
    decreases n, 1, 0
  {
    if 5 * (size + 1) <= 4 * capacity then (size + 1, capacity)
    else Move(size + 1, 2 * capacity, 0, n)
  }

  /** The same while a resize reinserts entries i to n, counting them again. */
  ghost function Move(size: nat, capacity: nat, i: nat, n: nat): (nat, nat)
    requires i <= n
    decreases n, 0, n - i
  {
    if i == n then (size, capacity)
    else
      var (s, c) := AddFresh(size, capacity, i);
      Move(s, c, i + 1, n)
  }

  /** The first four keys: the fourth one makes the table grow, and, as the moved
      entries are counted again, grow once more while they are moved. */
  lemma FirstFourKeys()
    ensures AddFresh(0, 4, 0) == (1, 4) && AddFresh(1, 4, 1) == (2, 4) && AddFresh(2, 4, 2) == (3, 4)
    ensures AddFresh(3, 4, 3) == (9, 16)
  {
    assert Move(9, 16, 2, 2) == (9, 16) && Move(8, 16, 1, 2) == (9, 16) && Move(7, 16, 0, 2) == (9, 16);
    assert AddFresh(6, 8, 2) == (9, 16) && Move(9, 16, 3, 3) == (9, 16) && Move(6, 8, 2, 3) == (9, 16);
    assert Move(5, 8, 1, 3) == (9, 16) && Move(4, 8, 0, 3) == (9, 16);
  }

  lemma {:induction false} MoveWithoutResize(size: nat, capacity: nat, i: nat, n: nat)
    requires i <= n && 5 * (size + n - i) <= 4 * capacity
    ensures Move(size, capacity, i, n) == (size + n - i, capacity)
    decreases n - i
  {
    if i < n {
      MoveWithoutResize(size + 1, capacity, i + 1, n);
    }
  }

  /** What holds of size, capacity and the number of keys n when keys are only
      set: the entries that resizes counted again are 5, or two fifths of the
      capacity. */
  ghost predicate SetOnly(size: nat, capacity: nat, n: nat) {
    || (capacity == 4 && size == n <= 3)
    || (capacity == 16 && 4 <= n && size == n + 5 <= 12)
    || (capacity >= 32 && size == n + 2 * capacity / 5 && 5 * size <= 4 * capacity < 20 * n)
  }

  lemma SetOnlyStep(size: nat, capacity: nat, n: nat)
    requires SetOnly(size, capacity, n)
    ensures var (s, c) := AddFresh(size, capacity, n); SetOnly(s, c, n + 1)
  {
    if 5 * (size + 1) > 4 * capacity {
      if capacity == 4 {
        MoveWithoutResize(4, 8, 0, 2);
        assert AddFresh(6, 8, 2) == Move(7, 16, 0, 2);
        MoveWithoutResize(7, 16, 0, 2);
        assert Move(4, 8, 0, 3) == Move(5, 8, 1, 3) == Move(6, 8, 2, 3) == Move(9, 16, 3, 3);
      } else {
        MoveWithoutResize(size + 1, 2 * capacity, 0, n);
      }
    }
  }

  // ---------- runs ----------

  datatype Op<V> = SetOp(key: Key, value: V) | GetOp(key: Key) | RemoveOp(key: Key)

  ghost function After<V>(m: map<Key, V>, op: Op<V>): map<Key, V> {
    match op
    case SetOp(key, value) => m[key := value]
    case GetOp(_) => m
    case RemoveOp(key) => m - {key}
  }

  ghost function Final<V>(m: map<Key, V>, ops: seq<Op<V>>): map<Key, V> {
    if ops == [] then m else After(Final(m, ops[..|ops| - 1]), ops[|ops| - 1])
  }

  ghost function Answer<V>(m: map<Key, V>, op: Op<V>): Option<V> {
    if op.GetOp? && op.key in m then Some(m[op.key]) else None
  }

  /** The replies are those of a map. */
  ghost predicate Explained<V>(m: map<Key, V>, ops: seq<Op<V>>, replies: seq<Option<V>>)
    requires |ops| == |replies|
  {
    ops == [] ||
    var n := |ops| - 1;
    Explained(m, ops[..n], replies[..n]) && replies[n] == Answer(Final(m, ops[..n]), ops[n])
  }

  /** The map behind a run, operation by operation. */
  lemma {:induction false} RunCases<V>(m: map<Key, V>, ops: seq<Op<V>>, replies: seq<Option<V>>, op: Op<V>,
                                       reply: Option<V>)
    requires |ops| == |replies|
    ensures var n, next := Final(m, ops), Final(m, ops + [op]);
      && Final(m, []) == m
      && (op.SetOp? ==> next == n[op.key := op.value]) && (op.GetOp? ==> next == n)
      && (op.RemoveOp? ==> next == n - {op.key})
      && (Explained(m, ops + [op], replies + [reply]) ==>
            && Explained(m, ops, replies)
            && reply == if op.GetOp? && op.key in n then Some(n[op.key]) else None)
  {
    assert (ops + [op])[..|ops|] == ops && (replies + [reply])[..|replies|] == replies;
  }

  lemma RunStep<V>(m: map<Key, V>, ops: seq<Op<V>>, replies: seq<Option<V>>, reply: Option<V>)
    requires |replies| < |ops| && reply == Answer(Final(m, ops[..|replies|]), ops[|replies|])
    ensures var i := |replies|;
      && Final(m, ops[..i + 1]) == After(Final(m, ops[..i]), ops[i])
      && (Explained(m, ops[..i], replies) ==> Explained(m, ops[..i + 1], replies + [reply]))
  {
    assert ops[..|replies| + 1][..|replies|] == ops[..|replies|];
    assert (replies + [reply])[..|replies|] == replies;
  }

  lemma RunStart<V>(m: map<Key, V>, ops: seq<Op<V>>)
    ensures Final(m, ops[..0]) == m && Explained(m, ops[..0], [])
  {
  }

  /** The entries of the first i slots. */
  ghost function Moved<V>(m: map<Key, V>, w: map<Key, nat>, i: nat): (r: map<Key, V>)
    ensures forall k :: k in r <==> k in m && k in w && w[k] < i
    ensures forall k | k in r :: r[k] == m[k]
  {
    map k | k in m && k in w && w[k] < i :: m[k]
  }

  lemma MovedLive<V>(b: seq<Entry<V>>, m: map<Key, V>, w: map<Key, nat>, i: nat)
    requires Represents(b, m, w) && i < |b| && b[i].Live?
    ensures b[i].key !in Moved(m, w, i) && |Moved(m, w, i)| < |m|
    ensures Moved(m, w, i + 1) == Moved(m, w, i)[b[i].key := b[i].value]
  {
    hide OnTheWay;
    OnlyKeyAt(b, m, w, i);
    MovedOneMore(m, w, i, b[i].key);
  }

  lemma OnlyKeyAt<V>(b: seq<Entry<V>>, m: map<Key, V>, w: map<Key, nat>, i: nat)
    requires Represents(b, m, w) && i < |b| && b[i].Live?
    ensures b[i].key in m && m[b[i].key] == b[i].value
    ensures forall k | k in m :: w[k] == i <==> k == b[i].key
  {
    hide OnTheWay;
    forall k | k in m && w[k] == i ensures k == b[i].key {
      assert b[w[k]] == Live(k, m[k]);
    }
    assert b[w[b[i].key]] == Live(b[i].key, m[b[i].key]);
  }

  lemma MovedAll<V>(b: seq<Entry<V>>, m: map<Key, V>, w: map<Key, nat>)
    requires Represents(b, m, w)
    ensures Moved(m, w, |b|) == m && Moved(m, w, 0) == map[]
  {
    assert Moved(m, w, |b|).Keys == m.Keys;
  }

  lemma MovedOneMore<V>(m: map<Key, V>, w: map<Key, nat>, i: nat, key: Key)
    requires m.Keys == w.Keys && key in m && (forall k | k in m :: w[k] == i <==> k == key)
    ensures key !in Moved(m, w, i) && |Moved(m, w, i)| < |m|
    ensures Moved(m, w, i + 1) == Moved(m, w, i)[key := m[key]]
  {
    SubsetSize(Moved(m, w, i).Keys, m.Keys - {key});
    assert Moved(m, w, i + 1).Keys == Moved(m, w, i).Keys + {key};
  }

  lemma MovedOther<V>(b: seq<Entry<V>>, m: map<Key, V>, w: map<Key, nat>, i: nat)
    requires Represents(b, m, w) && i < |b| && !b[i].Live?
    ensures Moved(m, w, i + 1) == Moved(m, w, i)
  {
    forall k | k in m ensures w[k] != i {
      assert b[w[k]] == Live(k, m[k]);
    }
    assert Moved(m, w, i + 1).Keys == Moved(m, w, i).Keys;
  }

  class Hashtable<V> {
    var size: nat
    var capacity: nat
    var body: array<Entry<V>>

    // The map the table stands for, and the slot of each key.
    ghost var Map: map<Key, V>
    ghost var Where: map<Key, nat>

    /** Everything but the load limit. */
    ghost predicate Consistent()
      reads this, body
    {
      && INITIAL_CAPACITY <= capacity == body.Length
      && Represents(body[..], Map, Where)
      && |Map| <= size
    }

    ghost predicate Valid()
      reads this, body
    {
      Consistent() && 5 * size <= 4 * capacity
    }

    /** Probing for key ends: at a null slot, or at the key itself. */
    ghost predicate ProbeEnds(key: Key)
      reads this, body
    {
      HasNull(body[..]) || key in Map
    }

    constructor ()
      ensures Valid() && fresh(body) && Map == map[]
      ensures size == 0 && capacity == INITIAL_CAPACITY
      ensures NoDead(body[..]) && Nulls(body[..]) == INITIAL_CAPACITY
    {
      size := 0;
      capacity := INITIAL_CAPACITY;
      body := new Entry<V>[INITIAL_CAPACITY](_ => Null);
      Map, Where := map[], map[];
      new;
      AllNull(body[..]);
    }

    method FindSlot(key: Key) returns (index: nat)
      requires Consistent() && ProbeEnds(key)
      ensures index < capacity && FoundAt(body[..], key, index)
    {
      index := Start(key, capacity);
      ghost var b, start := body[..], index;
      ghost var goal := ProbeGoal(b, Map, Where, key);
      ghost var k, last := 0, Steps(start, goal, capacity);
      while !Stops(body[index], key)
        invariant k <= last && index == Around(start, k, capacity)
        invariant forall j | 0 <= j < |b| && OnTheWay(start, j, index) :: !Stops(b[j], key)
        decreases last - k
      {
        ProbeStep(b, key, start, k, last);
        index := NextSlot(index, capacity);
        k := k + 1;
      }
    }

    method Get(key: Key) returns (value: Option<V>)
      requires Valid() && ProbeEnds(key)
      ensures value == if key in Map then Some(Map[key]) else None
    {
      var index := FindSlot(key);
      FoundIsEntry(body[..], Map, Where, key, index);
      match body[index]
      case Live(_, v) => value := Some(v);
      case _ => value := None;
    }

    method Remove(key: Key)
      requires Valid() && ProbeEnds(key)
      modifies this, body
      ensures Valid() && body == old(body) && capacity == old(capacity)
      ensures Map == old(Map) - {key}
      ensures size == if key in old(Map) then old(size) - 1 else old(size)
      ensures Nulls(body[..]) == Nulls(old(body[..]))
    {
      hide Represents;
      var index := FindSlot(key);
      FoundIsEntry(body[..], Map, Where, key, index);
      if !body[index].Null? {
        RemoveRepresents(body[..], Map, Where, key);
        NullsOfUpdate(body[..], index, Dead);
        WriteSlot(index, Dead, Map - {key}, Where - {key}, size - 1);
      } else {
        assert Map - {key} == Map;
      }
    }

    /** Sets key to value; the caller holds the lock. A new key may make the
        table resize, and the resize comes back here for every entry it moves. */
    method SetUnlocked(key: Key, value: V)
      requires Valid() && ProbeEnds(key)
      modifies this, body
      ensures Valid() && (body == old(body) || fresh(body)) && Map == old(Map)[key := value]
      ensures NoDead(old(body[..])) ==> NoDead(body[..])
      ensures size >= old(size)
      ensures key in old(Map) ==>
        size == old(size) && capacity == old(capacity) && Nulls(body[..]) == Nulls(old(body[..]))
      ensures key !in old(Map) ==> (size, capacity) == AddFresh(old(size), old(capacity), |old(Map)|)
      ensures key !in old(Map) && 5 * (old(size) + 1) <= 4 * old(capacity) ==>
        Nulls(body[..]) + 1 == Nulls(old(body[..]))
      decreases |Map|, 2
    {
      hide Represents, FoundAt;
      var index := FindSlot(key);
      FoundIsEntry(body[..], Map, Where, key, index);
      if body[index].Live? {
        StoreEntry(index, key, value, size);
      } else if 5 * (size + 1) > 4 * capacity {
        size := size + 1;
        ResizeAndStore(key, value);
      } else {
        StoreEntry(index, key, value, size + 1);
      }
    }

    /** Resizes for a new key that is already counted, and stores it. */
    method ResizeAndStore(key: Key, value: V)
      requires Consistent() && key !in Map && |Map| < size && 5 * size <= 8 * capacity
      modifies this, body
      ensures Valid() && fresh(body) && Map == old(Map)[key := value]
      ensures NoDead(body[..]) && size >= old(size)
      ensures (size, capacity) == Move(old(size), 2 * old(capacity), 0, |old(Map)|)
      decreases |Map|, 1
    {
      hide Represents;
      Resize(capacity * 2);
      RoomLeft(body[..], Map, Where);
      var index := FindSlot(key);
      StoreEntry(index, key, value, size);
    }

    /** Moves every live entry into a new body, through the setter. */
    method Resize(newCapacity: nat)
      requires Consistent() && INITIAL_CAPACITY <= newCapacity && 5 * size <= 4 * newCapacity
      modifies this, body
      ensures Valid() && fresh(body) && NoDead(body[..]) && Map == old(Map)
      ensures (size, capacity) == Move(old(size), newCapacity, 0, |old(Map)|)
      ensures size >= old(size)
      decreases |Map|, 0
    {
      hide Represents;
      assert newCapacity >= size;
      var oldCapacity, oldBody := capacity, body;
      ghost var b, m, w := body[..], Map, Where;
      MovedAll(b, m, w);
      NewBody(newCapacity);
      for i := 0 to oldCapacity
        invariant Valid() && fresh(body) && NoDead(body[..]) && size >= old(size)
        invariant oldBody[..] == b && Map == Moved(m, w, i) && |Map| <= |m|
        invariant Move(size, capacity, |Map|, |m|) == Move(old(size), newCapacity, 0, |m|)
      {
        if oldBody[i].Live? {
          MovedLive(b, m, w, i);
          RoomLeft(body[..], Map, Where);
          SetUnlocked(oldBody[i].key, oldBody[i].value);
        } else {
          MovedOther(b, m, w, i);
        }
      }
      MovedAll(b, m, w);
    }

    /** Starts over with null slots only; size is left to the caller. */
    method NewBody(newCapacity: nat)
      requires INITIAL_CAPACITY <= newCapacity
      modifies this`body, this`capacity, this`Map, this`Where
      ensures Consistent() && fresh(body) && capacity == newCapacity && Map == map[]
      ensures NoDead(body[..])
    {
      body := new Entry<V>[newCapacity](_ => Null);
      capacity := newCapacity;
      Map, Where := map[], map[];
    }

    /** Writes key and value at the slot where probing for key ended. */
    method StoreEntry(index: nat, key: Key, value: V, newSize: nat)
      requires Consistent() && index < capacity && FoundAt(body[..], key, index)
      requires 5 * newSize <= 4 * capacity && |Map[key := value]| <= newSize
      modifies this`size, this`Map, this`Where, body
      ensures Valid() && Map == old(Map)[key := value] && size == newSize
      ensures NoDead(old(body[..])) ==> NoDead(body[..])
      ensures Nulls(body[..]) + (if key in old(Map) then 0 else 1) == Nulls(old(body[..]))
    {
      hide Represents;
      FoundIsEntry(body[..], Map, Where, key, index);
      StoreRepresents(body[..], Map, Where, key, index, value);
      NullsOfUpdate(body[..], index, Live(key, value));
      WriteSlot(index, Live(key, value), Map[key := value], Where[key := index], newSize);
    }

    method Perform(op: Op<V>) returns (reply: Option<V>)
      requires Valid() && ProbeEnds(op.key)
      modifies this, body
      ensures Valid() && (body == old(body) || fresh(body))
      ensures Map == After(old(Map), op) && reply == Answer(old(Map), op)
    {
      hide Represents;
      match op {
        case SetOp(key, value) => SetUnlocked(key, value); reply := None;
        case GetOp(key) => reply := Get(key);
        case RemoveOp(key) => Remove(key); reply := None;
      }
    }

    /** Any run agrees with a map up to an operation on an absent key in a table
        without a null slot: probing for that key would never end. */
    method Run(ops: seq<Op<V>>) returns (replies: seq<Option<V>>)
      requires Valid()
      modifies this, body
      ensures Valid() && |replies| <= |ops| && Map == Final(old(Map), ops[..|replies|])
      ensures Explained(old(Map), ops[..|replies|], replies)
      ensures |replies| < |ops| ==> !ProbeEnds(ops[|replies|].key)
    {
      hide Represents, Final, Explained, Answer, After;
      replies := [];
      ghost var m := Map;
      RunStart(m, ops);
      while |replies| < |ops|
        invariant Valid() && (body == old(body) || fresh(body))
        invariant |replies| <= |ops| && Map == Final(m, ops[..|replies|])
        invariant Explained(m, ops[..|replies|], replies)
      {
        ProbingEnds(body[..], Map, Where, ops[|replies|].key);
        if forall i | 0 <= i < body.Length :: !Stops(body[i], ops[|replies|].key) {
          return;
        }
        var reply := Perform(ops[|replies|]);
        RunStep(m, ops, replies, reply);
        replies := replies + [reply];
      }
    }

    /** Filling a table never runs out of null slots, and leaves it the initial
        capacity or one below five slots a key. */
    method Fill(entries: seq<(Key, V)>)
      requires Valid() && NoDead(body[..]) && SetOnly(size, capacity, |Map|)
      modifies this, body
      ensures Valid() && NoDead(body[..]) && HasNull(body[..])
      ensures Map == Final(old(Map), seq(|entries|, i requires 0 <= i < |entries| => SetOp(entries[i].0, entries[i].1)))
      ensures capacity == INITIAL_CAPACITY || capacity < 5 * |Map|
    {
      hide Represents, AddFresh;
      ghost var m, ops := Map, seq(|entries|, i requires 0 <= i < |entries| => SetOp(entries[i].0, entries[i].1));
      for i := 0 to |entries|
        invariant Valid() && NoDead(body[..]) && SetOnly(size, capacity, |Map|)
        invariant body == old(body) || fresh(body)
        invariant Map == Final(m, ops[..i])
      {
        RoomLeft(body[..], Map, Where);
        SetOnlyStep(size, capacity, |Map|);
        SetUnlocked(entries[i].0, entries[i].1);
        assert ops[..i + 1][..i] == ops[..i];
      }
      RoomLeft(body[..], Map, Where);
      assert ops[..|entries|] == ops;
    }

    /** Setting and removing four keys, one after the other, uses up every null
        slot of a new table: it is empty, yet probing for any key goes on for ever. */
    method UseUp(keys: seq<Key>, value: V)
      requires |keys| == INITIAL_CAPACITY && Valid() && Map == map[]
      requires size == 0 && capacity == INITIAL_CAPACITY && Nulls(body[..]) == INITIAL_CAPACITY
      modifies this, body
      ensures Valid() && Map == map[] && !HasNull(body[..])
      ensures forall key: Key :: !ProbeEnds(key)
    {
      hide Represents;
      for i := 0 to INITIAL_CAPACITY
        invariant Valid() && Map == map[] && (body == old(body) || fresh(body))
        invariant size == 0 && capacity == INITIAL_CAPACITY && Nulls(body[..]) == INITIAL_CAPACITY - i
      {
        NullsPositive(body[..]);
        SetUnlocked(keys[i], value);
        Remove(keys[i]);
      }
      NullsPositive(body[..]);
    }

    /** Writes one slot, after which the table stands for the map m. */
    method WriteSlot(index: nat, e: Entry<V>, ghost m: map<Key, V>, ghost w: map<Key, nat>, newSize: nat)
      requires INITIAL_CAPACITY <= capacity == body.Length && index < capacity
      requires Represents(body[..][index := e], m, w) && |m| <= newSize
      modifies this`size, this`Map, this`Where, body
      ensures Consistent() && Map == m && Where == w && size == newSize
      ensures body[..] == old(body[..])[index := e]
    {
      hide Represents;
      body[index] := e;
      assert body[..] == old(body[..])[index := e];
      size, Map, Where := newSize, m, w;
    }
  }

  /** A slot at which probing for key would stop. */
  lemma ProbeGoal<V>(b: seq<Entry<V>>, m: map<Key, V>, w: map<Key, nat>, key: Key) returns (i: nat)
    requires Represents(b, m, w) && (HasNull(b) || key in m)
    ensures i < |b| && Stops(b[i], key)
  {
    if key in m {
      i := w[key];
    } else {
      i :| i < |b| && b[i].Null?;
    }
  }

  /** Probing ends exactly when there is a null slot or the key is there. */
  lemma ProbingEnds<V>(b: seq<Entry<V>>, m: map<Key, V>, w: map<Key, nat>, key: Key)
    requires Represents(b, m, w)
    ensures (exists i :: 0 <= i < |b| && Stops(b[i], key)) <==> HasNull(b) || key in m
  {
    if HasNull(b) || key in m {
      var i := ProbeGoal(b, m, w, key);
    }
  }

  lemma {:induction false} AllNull<V>(b: seq<Entry<V>>)
    requires forall i | 0 <= i < |b| :: b[i].Null?
    ensures Nulls(b) == |b|
  {
    if b != [] {
      AllNull(b[..|b| - 1]);
    }
  }
}
