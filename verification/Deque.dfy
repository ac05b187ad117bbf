/** The block deque of deque.c: elements live in fixed-size blocks, and a table
    of block pointers is slid, regrown and recycled as the two ends move. */
module BlockDeque {
  import opened Wrappers

  const MAX_BLOCK_BYTE_SIZE: nat := 4096
  const MIN_BLOCK_ELEMENT_SIZE: nat := 16
  const INITIAL_BLOCK_COUNT: nat := 8
  const SIZE_MAX: nat := 0xFFFF_FFFF_FFFF_FFFF

  datatype Status = OK | ENOMEM | ERANGE | EINVAL

  function Max(a: nat, b: nat): nat {
    if a < b then b else a
  }

  /** Unsigned decrement of a size_t. */
  function Decrement(n: nat): nat {
    if n == 0 then SIZE_MAX else n - 1
  }

  // ---------- blocks and positions ----------

  /** The cells of a run of blocks, in order. */
  ghost function Flatten<T>(rows: seq<seq<T>>): (cells: seq<T>)
  {
    if rows == [] then [] else rows[0] + Flatten(rows[1..])
  }

  /** The number of cells in n blocks. */
  ghost function Span(n: nat, size: nat): (cells: nat) {
    if n == 0 then 0 else Span(n - 1, size) + size
  }

  lemma {:induction false} SpanIsProduct(n: nat, size: nat)
    ensures Span(n, size) == n * size
  {
    if n > 0 {
      SpanIsProduct(n - 1, size);
      assert n * size == (n - 1) * size + size;
    }
  }

  lemma {:induction false} SpanSum(a: nat, b: nat, size: nat)
    ensures Span(a + b, size) == Span(a, size) + Span(b, size)
  {
    if b > 0 {
      SpanSum(a, b - 1, size);
    }
  }

  lemma SpanOrder(a: nat, b: nat, size: nat)
    ensures a <= b ==> Span(a, size) <= Span(b, size)
    ensures a < b ==> Span(a, size) + size <= Span(b, size)
  {
    if a < b {
      SpanSum(a + 1, b - a - 1, size);
    }
  }

  lemma SpanUnique(p: nat, q: nat, o: nat, size: nat)
    requires o < size && p == Span(q, size) + o
    ensures p / size == q && p % size == o
  {
    SpanIsProduct(q, size);
    SpanIsProduct(p / size, size);
    SpanOrder(p / size, q, size);
    SpanOrder(q, p / size, size);
    assert p == Span(p / size, size) + p % size;
  }

  lemma SpanOf(p: nat, size: nat)
    requires size > 0
    ensures p == Span(p / size, size) + p % size
  {
    SpanIsProduct(p / size, size);
  }

  /** The number of whole blocks that p cells fill. */
  ghost function WholeBlocks(p: nat, size: nat): (n: nat)
    requires size > 0
    ensures Span(n, size) <= p < Span(n, size) + size
  {
    if p < size then 0 else 1 + WholeBlocks(p - size, size)
  }

  lemma WholeBlocksAtLeast(p: nat, size: nat, n: nat)
    requires size > 0
    ensures Span(n, size) <= p <==> n <= WholeBlocks(p, size)
  {
    SpanOrder(n, WholeBlocks(p, size), size);
    SpanOrder(WholeBlocks(p, size), n, size);
  }

  lemma MoreWholeBlocks(p: nat, q: nat, size: nat)
    requires size > 0 && p <= q
    ensures WholeBlocks(p, size) <= WholeBlocks(q, size)
  {
    WholeBlocksAtLeast(q, size, WholeBlocks(p, size));
  }

  lemma WholeBlocksIsQuotient(p: nat, size: nat)
    requires size > 0
    ensures WholeBlocks(p, size) == p / size
  {
    var n := WholeBlocks(p, size);
    SpanUnique(p, n, p - Span(n, size), size);
  }

  ghost predicate Rectangular<T>(rows: seq<seq<T>>, size: nat) {
    forall i | 0 <= i < |rows| :: |rows[i]| == size
  }

  lemma {:induction false} FlattenSize<T>(rows: seq<seq<T>>, size: nat)
    requires Rectangular(rows, size)
    ensures |Flatten(rows)| == Span(|rows|, size)
  {
    if rows != [] {
      FlattenSize(rows[1..], size);
    }
  }

  lemma {:induction false} FlattenConcat<T>(a: seq<seq<T>>, b: seq<seq<T>>)
    ensures Flatten(a + b) == Flatten(a) + Flatten(b)
  {
    if a == [] {
      assert a + b == b;
    } else {
      assert (a + b)[1..] == a[1..] + b;
      FlattenConcat(a[1..], b);
    }
  }

  lemma FlattenOne<T>(row: seq<T>)
    ensures Flatten([row]) == row
  {
    assert Flatten([row]) == row + Flatten([row][1..]);
  }

  lemma OneRow<T>(row: seq<T>, size: nat)
    requires |row| == size > 0
    ensures Flatten([row]) == row && Rectangular([row], size) && Span(1, size) == size
  {
    FlattenOne(row);
    assert Span(0, size) == 0;
  }

  /** Cell r of the run is cell o of block i when r is i whole blocks and o cells. */
  lemma {:induction false} FlattenCell<T>(rows: seq<seq<T>>, size: nat, i: nat, o: nat, r: nat)
    requires Rectangular(rows, size) && i < |rows| && o < size && r == Span(i, size) + o
    ensures r < |Flatten(rows)| && Flatten(rows)[r] == rows[i][o]
  {
    if i > 0 {
      assert r - size == Span(i - 1, size) + o;
      FlattenCell(rows[1..], size, i - 1, o, r - size);
    }
  }

  lemma PartOfPart<T>(s: seq<T>, a: nat, n: nat, b: nat, count: nat)
    requires a + n <= |s| && b + count <= n
    ensures s[a + b..a + b + count] == s[a..a + n][b..b + count]
  {
    var part, left := s[a..a + n], s[a + b..a + b + count];
    var right := part[b..b + count];
    forall k | 0 <= k < count ensures left[k] == right[k] {
      assert part[b + k] == s[a + (b + k)];
    }
  }

  lemma FlattenRow<T>(rows: seq<seq<T>>, size: nat, i: nat)
    requires Rectangular(rows, size) && i < |rows|
    ensures Span(i, size) + size <= |Flatten(rows)|
    ensures Flatten(rows)[Span(i, size)..Span(i, size) + size] == rows[i]
  {
    FlattenReplace(rows, i, rows[i], size, Span(i, size));
    assert rows[i := rows[i]] == rows;
  }

  lemma {:induction false} FlattenUpdate<T>(rows: seq<seq<T>>, size: nat, i: nat, o: nat, r: nat, x: T)
    requires Rectangular(rows, size) && i < |rows| && o < size && r == Span(i, size) + o
    ensures r < |Flatten(rows)|
    ensures Flatten(rows[i := rows[i][o := x]]) == Flatten(rows)[r := x]
  {
    FlattenCell(rows, size, i, o, r);
    FlattenReplace(rows, i, rows[i][o := x], size, Span(i, size));
    FlattenReplace(rows, i, rows[i], size, Span(i, size));
    assert rows[i := rows[i]] == rows;
  }

  lemma FlattenReplace<T>(rows: seq<seq<T>>, i: nat, row: seq<T>, size: nat, before: nat)
    requires Rectangular(rows, size) && i < |rows| && before == Span(i, size)
    ensures |Flatten(rows[..i])| == before
    ensures Flatten(rows[i := row]) == Flatten(rows[..i]) + row + Flatten(rows[i + 1..])
  {
    assert rows[i := row] == rows[..i] + ([row] + rows[i + 1..]);
    FlattenConcat(rows[..i], [row] + rows[i + 1..]);
    FlattenConcat([row], rows[i + 1..]);
    FlattenOne(row);
    FlattenSize(rows[..i], size);
  }

  lemma FlattenMoveFrontRow<T>(rows: seq<seq<T>>)
    requires rows != []
    ensures Flatten(rows[1..] + [rows[0]]) == Flatten(rows)[|rows[0]|..] + rows[0]
  {
    FlattenConcat(rows[1..], [rows[0]]);
    FlattenOne(rows[0]);
  }

  lemma FlattenMoveBackRow<T>(rows: seq<seq<T>>)
    requires rows != []
    ensures var last := rows[|rows| - 1];
      Flatten(rows) == Flatten(rows[..|rows| - 1]) + last
      && Flatten([last] + rows[..|rows| - 1]) == last + Flatten(rows[..|rows| - 1])
  {
    var last, n := rows[|rows| - 1], |rows| - 1;
    assert rows == rows[..n] + [last];
    FlattenConcat(rows[..n], [last]);
    FlattenConcat([last], rows[..n]);
    FlattenOne(last);
  }

  /** Where the position r cells after the start of block a lies. */
  lemma Geometry(a: nat, n: nat, size: nat, r: nat) returns (q: nat, o: nat)
    requires size > 0 && r <= Span(n, size)
    ensures o < size && r == Span(q, size) + o
    ensures (Span(a, size) + r) / size == a + q && (Span(a, size) + r) % size == o
    ensures q <= n && (q == n <==> r == Span(n, size)) && (q == n ==> o == 0)
    ensures q > 0 <==> r >= size
  {
    q := WholeBlocks(r, size);
    o := r - Span(q, size);
    SpanSum(a, q, size);
    SpanUnique(Span(a, size) + r, a + q, o, size);
    SpanOrder(q, n, size);
    SpanOrder(n, q, size);
    SpanOrder(1, q, size);
  }

  lemma ShiftSpan(a: nat, shift: int, size: nat, cells: int)
    requires 0 <= a + shift && cells == shift * size
    ensures Span(a + shift, size) == Span(a, size) + cells
  {
    SpanIsProduct(a + shift, size);
    SpanIsProduct(a, size);
    assert (a + shift) * size == a * size + shift * size;
  }

  lemma LimitOfBlocks(n: nat, size: nat)
    requires size > 0
    ensures n <= SIZE_MAX / size <==> Span(n, size) <= SIZE_MAX
  {
    WholeBlocksAtLeast(SIZE_MAX, size, n);
    WholeBlocksIsQuotient(SIZE_MAX, size);
  }

  /** The new block count after a resize, or 0 when the table cannot grow. */
  function NewBlockCount(blockCount: nat, blockSize: nat): (n: nat)
    requires 0 < blockSize && 0 < blockCount <= SIZE_MAX / blockSize
    ensures n == 0 <==> blockCount == SIZE_MAX / blockSize
    ensures n != 0 ==> blockCount < n <= SIZE_MAX / blockSize
    ensures 2 <= blockCount ==> 2 * n <= 3 * blockCount
    ensures n != 0 && 2 <= blockCount && blockCount * 3 / 2 <= SIZE_MAX / blockSize ==> n == blockCount * 3 / 2
    ensures n != 0 && (blockCount == 1 || SIZE_MAX / blockSize < blockCount * 3 / 2) ==> n == SIZE_MAX / blockSize
  {
    var limit := SIZE_MAX / blockSize;
    if limit == blockCount then 0
    else
      var grown := blockCount * 3 / 2;
      if grown > limit || grown <= blockCount then limit else grown
  }

  /** memmove on table slots: the ranges may overlap. The slots from a to b are
      among those moved. */
  method MoveSlots<P>(table: array<P>, source: nat, target: nat, count: nat, ghost a: nat, ghost b: nat)
    requires source + count <= table.Length && target + count <= table.Length
    requires source <= a <= b <= source + count
    modifies table
    ensures table[a - source + target..b - source + target] == old(table[a..b])
  {
    forall k | 0 <= k < count { table[target + k] := table[source + k]; }
  }

  /** memcpy of count cells. */
  method CopyCells<P>(target: array<P>, offset: nat, source: array<P>, inner: nat, count: nat)
    requires target != source
    requires offset + count <= target.Length && inner + count <= source.Length
    modifies target
    ensures target[..] == Spliced(old(target[..]), offset, source[inner..inner + count])
  {
    forall k | 0 <= k < count { target[offset + k] := source[inner + k]; }
  }

  /** The sequence s with the cells from offset on overwritten by cells. */
  ghost function Spliced<P>(s: seq<P>, offset: nat, cells: seq<P>): (t: seq<P>)
    requires offset + |cells| <= |s|
  {
    s[..offset] + cells + s[offset + |cells|..]
  }

  lemma SplicedTwice<P>(s: seq<P>, cells: seq<P>, a: nat, b: nat, c: nat)
    requires a <= b <= c <= |cells| && c - a <= |s|
    ensures Spliced(Spliced(s, 0, cells[a..b]), b - a, cells[b..c]) == Spliced(s, 0, cells[a..c])
  {
  }

  lemma SplicedNone<P>(s: seq<P>, cells: seq<P>, a: nat)
    requires a <= |cells|
    ensures Spliced(s, 0, cells[a..a]) == s
  {
  }

  /** realloc of a table: a larger one that starts with the old slots. */
  method Realloc<P(0)>(table: array<P>, size: nat) returns (temp: array<P>)
    requires table.Length <= size
    ensures fresh(temp) && temp.Length == size
    ensures temp[..table.Length] == table[..]
  {
    temp := new P[size];
    forall b | 0 <= b < table.Length { temp[b] := table[b]; }
  }

  lemma WrappedProduct(size: nat, bytes: nat)
    requires bytes > 0
    ensures (size * bytes % (SIZE_MAX + 1)) / bytes == size <==> size * bytes <= SIZE_MAX
  {
    var wrapped := size * bytes % (SIZE_MAX + 1);
    SpanIsProduct(size, bytes);
    if size * bytes <= SIZE_MAX {
      SpanUnique(wrapped, size, 0, bytes);
    } else {
      SpanOf(wrapped, bytes);
    }
  }

  function BlockElements(dataSize: nat): (n: nat)
    requires dataSize > 0
    ensures MIN_BLOCK_ELEMENT_SIZE <= n <= MAX_BLOCK_BYTE_SIZE
  {
    var n := MAX_BLOCK_BYTE_SIZE / dataSize;
    if n < MIN_BLOCK_ELEMENT_SIZE then MIN_BLOCK_ELEMENT_SIZE else n
  }

  // ---------- the sequence that a deque has to be ----------

  datatype Op<T> =
    | PushFrontOp(x: T) | PushBackOp(x: T) | PopFrontOp | PopBackOp
    | GetAtOp(index: nat) | SetAtOp(index: nat, x: T) | CopyOp | ClearOp

  datatype Reply<T> = Done(status: Status) | Got(value: Option<T>) | Copied(cells: seq<T>)

  predicate OutOfMemory<T>(op: Op<T>, reply: Reply<T>) {
    (op.PushFrontOp? || op.PushBackOp? || op.ClearOp?) &&
    reply.Done? && (reply.status == ENOMEM || reply.status == ERANGE)
  }

  /** The reply a plain sequence gives. */
  ghost function Answer<T>(s: seq<T>, op: Op<T>): Reply<T> {
    match op
    case PushFrontOp(_) => Done(OK)
    case PushBackOp(_) => Done(OK)
    case PopFrontOp => Got(if s == [] then None else Some(s[0]))
    case PopBackOp => Got(if s == [] then None else Some(s[|s| - 1]))
    case GetAtOp(index) => Got(if index < |s| then Some(s[index]) else None)
    case SetAtOp(index, _) => Done(if index < |s| then OK else EINVAL)
    case CopyOp => Copied(s)
    case ClearOp => Done(OK)
  }

  ghost function After<T>(s: seq<T>, op: Op<T>): seq<T> {
    match op
    case PushFrontOp(x) => [x] + s
    case PushBackOp(x) => s + [x]
    case PopFrontOp => if s == [] then s else s[1..]
    case PopBackOp => if s == [] then s else s[..|s| - 1]
    case GetAtOp(_) => s
    case SetAtOp(index, x) => if index < |s| then s[index := x] else s
    case CopyOp => s
    case ClearOp => []
  }

  /** An operation that found no memory leaves the sequence alone. */
  ghost function Next<T>(s: seq<T>, op: Op<T>, reply: Reply<T>): seq<T> {
    if OutOfMemory(op, reply) then s else After(s, op)
  }

  /** Where a plain sequence is after a run. */
  ghost function Final<T>(s: seq<T>, ops: seq<Op<T>>, replies: seq<Reply<T>>): seq<T>
    requires |ops| == |replies|
  {
    if ops == [] then s
    else
      var n := |ops| - 1;
      Next(Final(s, ops[..n], replies[..n]), ops[n], replies[n])
  }

  /** Every reply is the plain sequence's, except where memory ran out. */
  ghost predicate Explained<T>(s: seq<T>, ops: seq<Op<T>>, replies: seq<Reply<T>>)
    requires |ops| == |replies|
  {
    ops == [] ||
    var n := |ops| - 1;
    && Explained(s, ops[..n], replies[..n])
    && (OutOfMemory(ops[n], replies[n]) || replies[n] == Answer(Final(s, ops[..n], replies[..n]), ops[n]))
  }

  /** The largest size on the way. */
  ghost function PeakSize<T>(s: seq<T>, ops: seq<Op<T>>, replies: seq<Reply<T>>): nat
    requires |ops| == |replies|
  {
    if ops == [] then |s|
    else Max(PeakSize(s, ops[..|ops| - 1], replies[..|ops| - 1]), |Final(s, ops, replies)|)
  }

  /** The sequence behind a run, operation by operation: only a push or a clear may find
      no memory, and then changes nothing. */
  lemma {:induction false} RunCases<T>(s: seq<T>, ops: seq<Op<T>>, replies: seq<Reply<T>>, op: Op<T>, reply: Reply<T>)
    requires |ops| == |replies|
    ensures var t, u := Final(s, ops, replies), Final(s, ops + [op], replies + [reply]);
      var explained := Explained(s, ops + [op], replies + [reply]);
      && Final(s, [], []) == s
      && (explained ==> Explained(s, ops, replies))
      && (op.PushFrontOp? ==>
            && (reply == Done(OK) ==> u == [op.x] + t)
            && (explained && reply != Done(OK) ==> u == t && (reply == Done(ENOMEM) || reply == Done(ERANGE))))
      && (op.PushBackOp? ==>
            && (reply == Done(OK) ==> u == t + [op.x])
            && (explained && reply != Done(OK) ==> u == t && (reply == Done(ENOMEM) || reply == Done(ERANGE))))
      && (op.ClearOp? ==>
            && (reply == Done(OK) ==> u == [])
            && (explained && reply != Done(OK) ==> u == t && (reply == Done(ENOMEM) || reply == Done(ERANGE))))
      && (op.PopFrontOp? && explained ==>
            if t == [] then reply == Got(None) && u == [] else reply == Got(Some(t[0])) && u == t[1..])
      && (op.PopBackOp? && explained ==>
            if t == [] then reply == Got(None) && u == [] else reply == Got(Some(t[|t| - 1])) && u == t[..|t| - 1])
      && (op.GetAtOp? && explained ==>
            reply == Got(if op.index < |t| then Some(t[op.index]) else None) && u == t)
      && (op.SetAtOp? && explained ==>
            if op.index < |t| then reply == Done(OK) && u == t[op.index := op.x] else reply == Done(EINVAL) && u == t)
      && (op.CopyOp? && explained ==> reply == Copied(t) && u == t)
  {
    assert (ops + [op])[..|ops|] == ops && (replies + [reply])[..|replies|] == replies;
  }

  lemma RunStep<T>(s: seq<T>, ops: seq<Op<T>>, i: nat, replies: seq<Reply<T>>, reply: Reply<T>)
    requires i < |ops| && |replies| == i
    ensures var t := Final(s, ops[..i], replies);
      && Final(s, ops[..i + 1], replies + [reply]) == Next(t, ops[i], reply)
      && (Explained(s, ops[..i + 1], replies + [reply]) <==>
          Explained(s, ops[..i], replies) && (OutOfMemory(ops[i], reply) || reply == Answer(t, ops[i])))
      && PeakSize(s, ops[..i + 1], replies + [reply])
         == Max(PeakSize(s, ops[..i], replies), |Next(t, ops[i], reply)|)
  {
    assert ops[..i + 1][..i] == ops[..i];
    assert (replies + [reply])[..i] == replies;
  }

  class Deque<T(0)> {
    var blockSize: nat
    var startIndex: nat
    var endIndex: nat
    var blockCount: nat
    var allocStart: nat
    var allocEnd: nat
    var data: array<array?<T>>

    // What the deque stands for, the largest size it ever had, its allocated
    // blocks and their cells, the part of those in use, and the objects it owns.
    ghost var Elements: seq<T>
    ghost var Peak: nat
    ghost var Blocks: seq<array<T>>
    ghost var Rows: seq<seq<T>>
    ghost var Front: nat
    ghost var Back: nat
    ghost var Repr: set<object>

    ghost predicate Table(first: nat, last: nat, blocks: nat)
      reads this`blockSize, this`blockCount
    {
      && MIN_BLOCK_ELEMENT_SIZE <= blockSize
      && INITIAL_BLOCK_COUNT <= blockCount && Span(blockCount, blockSize) <= SIZE_MAX
      && 0 < blocks && first + blocks == last + 1 <= blockCount
    }

    ghost predicate Layout(first: nat, last: nat, blocks: nat, front: nat, back: nat)
      reads this
    {
      && Table(first, last, blocks)
      && front <= back <= Span(blocks, blockSize)
      && startIndex == Span(first, blockSize) + front
      && endIndex == Span(first, blockSize) + back
    }

    /** These blocks sit in the table from slot first on, and are distinct and owned. */
    ghost predicate Owns(first: nat, blocks: seq<array<T>>, rows: seq<seq<T>>)
      reads this`Repr, this`data, this`blockCount, this`blockSize, data, blocks
    {
      && this in Repr && data in Repr && this as object != data
      && data.Length == blockCount && first + |blocks| <= blockCount
      && |blocks| == |rows| && data[first..first + |blocks|] == blocks
      && Rectangular(rows, blockSize)
      && (forall i | 0 <= i < |blocks| ::
            blocks[i] in Repr && blocks[i][..] == rows[i]
            && blocks[i] as object != data && blocks[i] as object != this)
      && (forall i, j | 0 <= i < j < |blocks| :: blocks[i] != blocks[j])
    }

    /** The memory held is bounded by the peak size. */
    ghost predicate Bounded(rows: nat)
      reads this`blockSize, this`blockCount, this`Peak
    {
      && blockSize > 0
      && rows <= WholeBlocks(Peak, blockSize) + 2
      && 2 * blockCount <= 3 * (WholeBlocks(Peak, blockSize) + 10)
    }

    /** The sequence is the part in use of the cells. */
    ghost predicate Contents(rows: seq<seq<T>>, front: nat, back: nat)
      reads this
    {
      && |Elements| <= Peak && Bounded(|rows|)
      && |Flatten(rows)| == Span(|rows|, blockSize) && front <= back <= |Flatten(rows)|
      && Elements == Flatten(rows)[front..back]
    }

    ghost predicate Valid()
      reads this, data, Blocks
    {
      && Layout(allocStart, allocEnd, |Blocks|, Front, Back)
      && Owns(allocStart, Blocks, Rows)
      && Contents(Rows, Front, Back)
    }

    constructor Allocated(blockSize: nat)
      requires MIN_BLOCK_ELEMENT_SIZE <= blockSize && INITIAL_BLOCK_COUNT * blockSize <= SIZE_MAX
      ensures Valid() && fresh(Repr)
      ensures Elements == [] && Peak == 0 && this.blockSize == blockSize
    {
      var startIndex := blockSize * INITIAL_BLOCK_COUNT / 2;
      SpanIsProduct(4, blockSize);
      SpanIsProduct(8, blockSize);
      SpanUnique(startIndex, 4, 0, blockSize);
      var table := new array?<T>[INITIAL_BLOCK_COUNT];
      var block := new T[blockSize];
      table[startIndex / blockSize] := block;
      this.blockSize := blockSize;
      this.startIndex, this.endIndex := startIndex, startIndex;
      this.blockCount := INITIAL_BLOCK_COUNT;
      this.allocStart, this.allocEnd := startIndex / blockSize, startIndex / blockSize;
      this.data := table;
      Elements, Peak := [], 0;
      Blocks, Rows, Front, Back := [block], [block[..]], 0, 0;
      Repr := {this, table, block};
      FlattenSize([block[..]], blockSize);
    }

    /** Moves count table slots, among them the allocated range, by shift. */
    method Slide(lo: nat, count: nat, shift: int)
      requires Valid() && lo <= allocStart <= allocEnd < lo + count <= blockCount
      requires 0 <= lo + shift && lo + count + shift <= blockCount
      modifies this`startIndex, this`endIndex, this`allocStart, this`allocEnd, data
      ensures Valid() && allocStart == old(allocStart) + shift
    {
      MoveSlots(data, lo, lo + shift, count, allocStart, allocEnd + 1);
      Reindex(shift);
    }

    /** Follows a move of the allocated range by shift table slots. */
    method Reindex(shift: int)
      requires Layout(allocStart, allocEnd, |Blocks|, Front, Back) && Contents(Rows, Front, Back)
      requires 0 <= allocStart + shift && Owns(allocStart + shift, Blocks, Rows)
      modifies this`startIndex, this`endIndex, this`allocStart, this`allocEnd
      ensures Valid() && allocStart == old(allocStart) + shift
    {
      ShiftSpan(allocStart, shift, blockSize, shift * blockSize);
      startIndex := startIndex + shift * blockSize;
      endIndex := endIndex + shift * blockSize;
      allocStart := allocStart + shift;
      allocEnd := allocEnd + shift;
    }

    /** Regrows the table at its end. */
    method Regrow(newBlockCount: nat)
      requires Valid() && blockCount < newBlockCount && Span(newBlockCount, blockSize) <= SIZE_MAX
      requires 2 * newBlockCount <= 3 * (WholeBlocks(Peak, blockSize) + 10)
      modifies this`data, this`blockCount, this`Repr
      ensures Valid() && fresh(Repr - old(Repr)) && fresh(data)
      ensures blockCount == newBlockCount
    {
      hide Flatten, Span, WholeBlocks;
      var temp := Realloc(data, newBlockCount);
      assert temp[..blockCount][allocStart..allocEnd + 1] == Blocks;
      assert temp[..blockCount][allocStart..allocEnd + 1] == temp[allocStart..allocEnd + 1];
      data := temp;
      blockCount := newBlockCount;
      Repr := Repr + {temp};
    }

    /** Writes cell r of the allocated run, which is at position p. */
    method Store(p: nat, ghost r: nat, x: T)
      requires blockSize > 0 && Owns(allocStart, Blocks, Rows)
      requires p == Span(allocStart, blockSize) + r && r < |Flatten(Rows)| == Span(|Rows|, blockSize)
      modifies this`Rows, Blocks
      ensures Owns(allocStart, Blocks, Rows) && |Rows| == old(|Rows|)
      ensures Flatten(Rows) == old(Flatten(Rows))[r := x]
    {
      hide Flatten, Span;
      ghost var q, o := Geometry(allocStart, |Rows|, blockSize, r);
      assert data[allocStart + q] == Blocks[q];
      FlattenUpdate(Rows, blockSize, q, o, r, x);
      var block := data[p / blockSize];
      block[p % blockSize] := x;
      Rows := Rows[q := Rows[q][o := x]];
    }

    method Load(p: nat, ghost r: nat) returns (x: T)
      requires blockSize > 0 && Owns(allocStart, Blocks, Rows)
      requires p == Span(allocStart, blockSize) + r && r < |Flatten(Rows)| == Span(|Rows|, blockSize)
      ensures x == Flatten(Rows)[r]
    {
      ghost var q, o := Geometry(allocStart, |Rows|, blockSize, r);
      assert data[allocStart + q] == Blocks[q];
      FlattenCell(Rows, blockSize, q, o, r);
      x := data[p / blockSize][p % blockSize];
    }

    /** Takes other blocks as the allocated range. */
    method Adopt(first: nat, last: nat, ghost blocks: seq<array<T>>, ghost rows: seq<seq<T>>,
                 ghost front: nat, ghost back: nat)
      requires Layout(first, last, |blocks|, front, back)
      requires Owns(first, blocks, rows) && Contents(rows, front, back)
      modifies this`allocStart, this`allocEnd, this`Blocks, this`Rows, this`Front, this`Back
      ensures Valid() && Rows == rows && Blocks == blocks && Front == front && Back == back
      ensures allocStart == first && allocEnd == last
    {
      allocStart, allocEnd := first, last;
      Blocks, Rows, Front, Back := blocks, rows, front, back;
    }

    /** Moves the unused front block behind the last one. */
    method RecycleFrontBlock(slot: nat)
      requires Valid() && Front >= blockSize && slot == allocEnd + 1 < blockCount
      modifies this`allocStart, this`allocEnd, this`Blocks, this`Rows, this`Front, this`Back, data
      ensures Valid() && Back == old(Back) - blockSize && |Rows| == old(|Rows|)
    {
      MovedFrontRow();
      SpanSum(allocStart, 1, blockSize);
      data[slot] := data[allocStart];
      Adopt(allocStart + 1, allocEnd + 1, Blocks[1..] + [Blocks[0]], Rows[1..] + [Rows[0]],
            Front - blockSize, Back - blockSize);
    }

    /** Another block at either end leaves the sequence what it was, and the
        bound holds when the blocks so far are all in use. */
    lemma OneMoreRow(row: seq<T>)
      requires Contents(Rows, Front, Back) && Rectangular(Rows, blockSize) && |row| == blockSize
      requires Rows != [] && Back - Front >= Span(|Rows| - 1, blockSize)
      ensures Contents(Rows + [row], Front, Back)
      ensures Contents([row] + Rows, Front + blockSize, Back + blockSize)
    {
      WholeBlocksAtLeast(Peak, blockSize, |Rows| - 1);
      FlattenConcat(Rows, [row]);
      FlattenConcat([row], Rows);
      FlattenOne(row);
      SpanSum(1, |Rows|, blockSize);
    }

    /** Appends a fresh block behind the last one. */
    method AppendBlock(slot: nat)
      requires Valid() && Front < blockSize && Back == |Flatten(Rows)| && slot == allocEnd + 1 < blockCount
      modifies this`allocStart, this`allocEnd, this`Blocks, this`Rows, this`Front, this`Back
      modifies this`Repr, data
      ensures Valid() && |Rows| == old(|Rows|) + 1 && Back == old(Back)
      ensures fresh(Repr - old(Repr))
    {
      hide Flatten, WholeBlocks;
      var block := new T[blockSize];
      OneMoreRow(block[..]);
      data[slot] := block;
      Repr := Repr + {block};
      Adopt(allocStart, allocEnd + 1, Blocks + [block], Rows + [block[..]], Front, Back);
    }

    /** Moving an unused row to the other end leaves the sequence what it was. */
    lemma MovedFrontRow()
      requires Contents(Rows, Front, Back) && Rectangular(Rows, blockSize) && Rows != []
      requires Front >= blockSize
      ensures Contents(Rows[1..] + [Rows[0]], Front - blockSize, Back - blockSize)
    {
      hide Flatten, Span;
      FlattenMoveFrontRow(Rows);
      FlattenSize(Rows[1..] + [Rows[0]], blockSize);
      assert Flatten(Rows)[blockSize..][Front - blockSize..Back - blockSize] == Elements;
    }

    lemma MovedBackRow()
      requires Contents(Rows, Front, Back) && Rectangular(Rows, blockSize) && Rows != []
      requires Back <= Span(|Rows| - 1, blockSize)
      ensures Contents([Rows[|Rows| - 1]] + Rows[..|Rows| - 1], Front + blockSize, Back + blockSize)
    {
      hide Flatten, Span;
      var n := |Rows| - 1;
      FlattenMoveBackRow(Rows);
      FlattenSize(Rows[..n], blockSize);
      FlattenSize([Rows[n]] + Rows[..n], blockSize);
      assert Flatten(Rows[..n])[Front..Back] == Elements;
    }

    /** Moves the unused last block in front of the first one. */
    method RecycleBackBlock(slot: nat)
      requires Valid() && Back <= Span(|Rows| - 1, blockSize) && slot + 1 == allocStart
      modifies this`allocStart, this`allocEnd, this`Blocks, this`Rows, this`Front, this`Back, data
      ensures Valid() && Front == old(Front) + blockSize && |Rows| == old(|Rows|)
    {
      ghost var n := |Rows| - 1;
      MovedBackRow();
      data[slot] := data[allocEnd];
      Adopt(allocStart - 1, allocEnd - 1, [Blocks[n]] + Blocks[..n], [Rows[n]] + Rows[..n],
            Front + blockSize, Back + blockSize);
    }

    /** Puts a fresh block in front of the first one. */
    method PrependBlock(slot: nat)
      requires Valid() && Front == 0 && Back > Span(|Rows| - 1, blockSize) && slot + 1 == allocStart
      modifies this`allocStart, this`allocEnd, this`Blocks, this`Rows, this`Front, this`Back
      modifies this`Repr, data
      ensures Valid() && |Rows| == old(|Rows|) + 1 && Front == old(Front) + blockSize
      ensures fresh(Repr - old(Repr))
    {
      hide Flatten, WholeBlocks;
      var block := new T[blockSize];
      OneMoreRow(block[..]);
      data[slot] := block;
      Repr := Repr + {block};
      Adopt(allocStart - 1, allocEnd, [block] + Blocks, [block[..]] + Rows,
            Front + blockSize, Back + blockSize);
    }

    /** Regrows the table when almost all of its slots hold blocks. */
    method GrowTable(tableOk: bool) returns (status: Status)
      requires Valid() && blockCount <= |Rows| + INITIAL_BLOCK_COUNT
      modifies this`data, this`blockCount, this`Repr
      ensures Valid() && fresh(Repr - old(Repr)) && (data == old(data) || fresh(data))
      ensures status == OK ==> old(blockCount) < blockCount
      ensures status == ENOMEM ==> !tableOk
      ensures status == ERANGE ==> blockCount == SIZE_MAX / blockSize
      ensures status != EINVAL
    {
      LimitOfBlocks(blockCount, blockSize);
      var newBlockCount := NewBlockCount(blockCount, blockSize);
      if newBlockCount == 0 {
        return ERANGE;
      }
      if !tableOk {
        return ENOMEM;
      }
      LimitOfBlocks(newBlockCount, blockSize);
      Regrow(newBlockCount);
      return OK;
    }

    /** Makes sure the table has a slot for the block of endIndex. */
    method MakeRoomAtEnd(tableOk: bool) returns (status: Status)
      requires Valid()
      modifies this`startIndex, this`endIndex, this`allocStart, this`allocEnd
      modifies this`data, this`blockCount, this`Repr, data
      ensures Valid() && fresh(Repr - old(Repr)) && (data == old(data) || fresh(data))
      ensures status == OK ==> Back < Span(|Rows|, blockSize) || allocEnd + 1 < blockCount
      ensures status == ENOMEM ==> !tableOk
      ensures status == ERANGE ==> blockCount == SIZE_MAX / blockSize
      ensures status != EINVAL
    {
      status := OK;
      SpanIsProduct(blockCount, blockSize);
      SpanSum(allocStart, |Rows|, blockSize);
      SpanOrder(allocEnd + 1, blockCount, blockSize);
      if endIndex == blockCount * blockSize {
        var availableStart := allocStart;
        if availableStart > INITIAL_BLOCK_COUNT {
          var shiftStart := availableStart - availableStart / 2;
          Slide(allocStart, allocEnd - allocStart + 1, -shiftStart);
        } else {
          status := GrowTable(tableOk);
        }
      }
    }

    /** Makes sure the table has a slot for the block before startIndex. */
    method MakeRoomAtStart(tableOk: bool) returns (status: Status)
      requires Valid()
      modifies this`startIndex, this`endIndex, this`allocStart, this`allocEnd
      modifies this`data, this`blockCount, this`Repr, data
      ensures Valid() && fresh(Repr - old(Repr)) && (data == old(data) || fresh(data))
      ensures status == OK ==> startIndex > 0
      ensures status == ENOMEM ==> !tableOk
      ensures status == ERANGE ==> blockCount == SIZE_MAX / blockSize
      ensures status != EINVAL
    {
      status := OK;
      SpanOrder(1, allocStart, blockSize);
      if startIndex == 0 {
        var availableEnd := blockCount - allocEnd - 1;
        if availableEnd > INITIAL_BLOCK_COUNT {
          var shiftEnd := availableEnd / 2;
          SpanOrder(1, shiftEnd, blockSize);
          Slide(allocStart, allocEnd - allocStart + 1, shiftEnd);
        } else {
          var oldBlockCount := blockCount;
          status := GrowTable(tableOk);
          if status == OK {
            var addedBlocks := blockCount - oldBlockCount;
            SpanOrder(1, addedBlocks, blockSize);
            Slide(0, oldBlockCount, addedBlocks);
          }
        }
      }
    }

    /** What the source's tests on block numbers mean for the part in use. */
    lemma EndTests()
      requires Layout(allocStart, allocEnd, |Blocks|, Front, Back)
      ensures endIndex % blockSize == 0 && endIndex / blockSize > allocEnd <==> Back == Span(|Blocks|, blockSize)
      ensures endIndex / blockSize > allocEnd ==> endIndex / blockSize == allocEnd + 1
      ensures startIndex / blockSize > allocStart <==> Front >= blockSize
    {
      var q, o := Geometry(allocStart, |Blocks|, blockSize, Back);
      var q0, o0 := Geometry(allocStart, |Blocks|, blockSize, Front);
    }

    lemma StartTests()
      requires Layout(allocStart, allocEnd, |Blocks|, Front, Back) && startIndex > 0
      ensures startIndex % blockSize == 0 && startIndex / blockSize - 1 < allocStart <==> Front == 0
      ensures startIndex / blockSize == 0 ==> startIndex % blockSize != 0
      ensures startIndex / blockSize - 1 < allocStart ==> startIndex / blockSize == allocStart
    {
      SpanOf(startIndex, blockSize);
      var q, o := Geometry(allocStart, |Blocks|, blockSize, Front);
    }

    lemma LastBlockTest()
      requires Layout(allocStart, allocEnd, |Blocks|, Front, Back) && endIndex > 0
      ensures (endIndex - 1) / blockSize < allocEnd <==> Back <= Span(|Blocks| - 1, blockSize)
    {
      if Back == 0 {
        SpanSum(allocStart - 1, 1, blockSize);
        SpanUnique(endIndex - 1, allocStart - 1, blockSize - 1, blockSize);
      } else {
        var q1, o1 := Geometry(allocStart, |Blocks|, blockSize, Back - 1);
        SpanOrder(q1 + 1, |Blocks| - 1, blockSize);
        SpanOrder(|Blocks| - 1, q1, blockSize);
      }
    }

    /** Makes sure the block of endIndex is allocated. */
    method AddBlockAtEnd(blockOk: bool) returns (status: Status)
      requires Valid() && (Back < Span(|Rows|, blockSize) || allocEnd + 1 < blockCount)
      modifies this`allocStart, this`allocEnd, this`Blocks, this`Rows, this`Front, this`Back
      modifies this`Repr, data
      ensures Valid() && fresh(Repr - old(Repr))
      ensures status == OK ==> Back < Span(|Rows|, blockSize)
      ensures status != OK ==> status == ENOMEM && !blockOk
    {
      EndTests();
      if endIndex % blockSize == 0 {
        var addBlockIndex := endIndex / blockSize;
        if addBlockIndex > allocEnd {
          var startBlock := startIndex / blockSize;
          if startBlock > allocStart {
            RecycleFrontBlock(addBlockIndex);
          } else {
            if !blockOk {
              return ENOMEM;
            }
            AppendBlock(addBlockIndex);
          }
        }
      }
      return OK;
    }

    /** Makes sure the block before startIndex is allocated. */
    method AddBlockAtStart(blockOk: bool) returns (status: Status)
      requires Valid() && startIndex > 0
      modifies this`allocStart, this`allocEnd, this`Blocks, this`Rows, this`Front, this`Back
      modifies this`Repr, data
      ensures Valid() && fresh(Repr - old(Repr))
      ensures status == OK ==> Front > 0
      ensures status != OK ==> status == ENOMEM && !blockOk
    {
      StartTests();
      LastBlockTest();
      if startIndex % blockSize == 0 {
        var addBlockIndex := startIndex / blockSize - 1;
        if addBlockIndex < allocStart {
          var endBlock := (endIndex - 1) / blockSize;
          if endBlock < allocEnd {
            RecycleBackBlock(addBlockIndex);
          } else {
            if !blockOk {
              return ENOMEM;
            }
            PrependBlock(addBlockIndex);
          }
        }
      }
      return OK;
    }

    /** There is a block for each row, and what is owned besides the deque itself is
        another object. */
    lemma OwnsOthers()
      requires Owns(allocStart, Blocks, Rows)
      ensures |Blocks| == |Rows| && this as object != data && forall b | b in Blocks :: b as object != this
    {
    }

    /** Takes other positions as the part in use. */
    method Use(newStart: nat, newEnd: nat, ghost front: nat, ghost back: nat)
      requires Table(allocStart, allocEnd, |Blocks|) && Owns(allocStart, Blocks, Rows)
      requires Bounded(|Rows|) && |Flatten(Rows)| == Span(|Rows|, blockSize)
      requires front <= back <= |Flatten(Rows)|
      requires newStart == Span(allocStart, blockSize) + front
      requires newEnd == Span(allocStart, blockSize) + back
      modifies this`startIndex, this`endIndex, this`Front, this`Back, this`Elements, this`Peak
      ensures Valid() && Elements == Flatten(Rows)[front..back]
      ensures Peak == Max(old(Peak), |Elements|)
      ensures startIndex == newStart && endIndex == newEnd
    {
      hide Flatten, Span, Rectangular, WholeBlocks, Owns, Table;
      OwnsOthers();
      startIndex, endIndex := newStart, newEnd;
      Front, Back := front, back;
      Elements := Flatten(Rows)[front..back];
      ghost var peak := Max(Peak, |Elements|);
      MoreWholeBlocks(Peak, peak, blockSize);
      Peak := peak;
    }

    /** Prepares the cell at endIndex. tableOk and blockOk say whether the
        allocator gives a larger table and a block when asked. */
    method ReserveEnd(tableOk: bool, blockOk: bool) returns (status: Status)
      requires Valid()
      modifies this`startIndex, this`endIndex, this`allocStart, this`allocEnd
      modifies this`data, this`blockCount, this`Repr, data
      modifies this`Blocks, this`Rows, this`Front, this`Back
      ensures Valid() && fresh(Repr - old(Repr))
      ensures status == OK ==> Back < Span(|Rows|, blockSize)
      ensures status == ENOMEM ==> !tableOk || !blockOk
      ensures status == ERANGE ==> blockCount == SIZE_MAX / blockSize
      ensures status != EINVAL
    {
      status := MakeRoomAtEnd(tableOk);
      if status == OK {
        status := AddBlockAtEnd(blockOk);
      }
    }

    /** Prepares the cell before startIndex. */
    method ReserveStart(tableOk: bool, blockOk: bool) returns (status: Status)
      requires Valid()
      modifies this`startIndex, this`endIndex, this`allocStart, this`allocEnd
      modifies this`data, this`blockCount, this`Repr, data
      modifies this`Blocks, this`Rows, this`Front, this`Back
      ensures Valid() && fresh(Repr - old(Repr))
      ensures status == OK ==> Front > 0
      ensures status == ENOMEM ==> !tableOk || !blockOk
      ensures status == ERANGE ==> blockCount == SIZE_MAX / blockSize
      ensures status != EINVAL
    {
      status := MakeRoomAtStart(tableOk);
      if status == OK {
        status := AddBlockAtStart(blockOk);
      }
    }

    method StoreAtEnd(x: T)
      requires Valid() && Back < Span(|Rows|, blockSize)
      modifies this`startIndex, this`endIndex, this`Front, this`Back, this`Elements, this`Peak
      modifies this`Rows, Blocks
      ensures Valid() && Elements == old(Elements) + [x] && Peak == Max(old(Peak), |Elements|)
    {
      Store(endIndex, Back, x);
      Use(startIndex, endIndex + 1, Front, Back + 1);
    }

    method StoreAtStart(x: T)
      requires Valid() && Front > 0
      modifies this`startIndex, this`endIndex, this`Front, this`Back, this`Elements, this`Peak
      modifies this`Rows, Blocks
      ensures Valid() && Elements == [x] + old(Elements) && Peak == Max(old(Peak), |Elements|)
    {
      Store(startIndex - 1, Front - 1, x);
      Use(startIndex - 1, endIndex, Front - 1, Back);
    }

    /** Adds x behind the last element. */
    method PushBack(x: T, tableOk: bool, blockOk: bool) returns (status: Status)
      requires Valid()
      modifies Repr
      ensures Valid() && fresh(Repr - old(Repr)) && blockSize == old(blockSize)
      ensures status == OK ==> Elements == old(Elements) + [x] && Peak == Max(old(Peak), |Elements|)
      ensures status != OK ==> Elements == old(Elements) && Peak == old(Peak)
      ensures status == ENOMEM ==> !tableOk || !blockOk
      ensures status == ERANGE ==> blockCount == SIZE_MAX / blockSize
      ensures status != EINVAL
    {
      status := ReserveEnd(tableOk, blockOk);
      if status == OK {
        StoreAtEnd(x);
      }
    }

    /** Adds x in front of the first element. */
    method PushFront(x: T, tableOk: bool, blockOk: bool) returns (status: Status)
      requires Valid()
      modifies Repr
      ensures Valid() && fresh(Repr - old(Repr)) && blockSize == old(blockSize)
      ensures status == OK ==> Elements == [x] + old(Elements) && Peak == Max(old(Peak), |Elements|)
      ensures status != OK ==> Elements == old(Elements) && Peak == old(Peak)
      ensures status == ENOMEM ==> !tableOk || !blockOk
      ensures status == ERANGE ==> blockCount == SIZE_MAX / blockSize
      ensures status != EINVAL
    {
      status := ReserveStart(tableOk, blockOk);
      if status == OK {
        StoreAtStart(x);
      }
    }

    /** Removes the first element; None is the invalid-argument status. */
    method PopFront() returns (popped: Option<T>)
      requires Valid()
      modifies this`startIndex, this`endIndex, this`Front, this`Back, this`Elements, this`Peak
      ensures Valid() && Peak == old(Peak)
      ensures old(Elements) == [] ==> popped == None && Elements == []
      ensures old(Elements) != [] ==> popped.Some? && old(Elements) == [popped.value] + Elements
    {
      if endIndex - startIndex == 0 {
        return None;
      }
      var x := Load(startIndex, Front);
      Use(startIndex + 1, endIndex, Front + 1, Back);
      return Some(x);
    }

    /** Removes the last element. */
    method PopBack() returns (popped: Option<T>)
      requires Valid()
      modifies this`startIndex, this`endIndex, this`Front, this`Back, this`Elements, this`Peak
      ensures Valid() && Peak == old(Peak)
      ensures old(Elements) == [] ==> popped == None && Elements == []
      ensures old(Elements) != [] ==> popped.Some? && old(Elements) == Elements + [popped.value]
    {
      if endIndex - startIndex == 0 {
        return None;
      }
      var x := Load(endIndex - 1, Back - 1);
      Use(startIndex, endIndex - 1, Front, Back - 1);
      return Some(x);
    }

    method GetAt(index: nat) returns (got: Option<T>)
      requires Valid()
      ensures got == if index < |Elements| then Some(Elements[index]) else None
    {
      if index >= endIndex - startIndex {
        return None;
      }
      var x := Load(index + startIndex, Front + index);
      return Some(x);
    }

    method SetAt(index: nat, x: T) returns (status: Status)
      requires Valid()
      modifies this`startIndex, this`endIndex, this`Front, this`Back, this`Elements, this`Peak
      modifies this`Rows, Blocks
      ensures Valid() && Peak == old(Peak)
      ensures status == (if index < |old(Elements)| then OK else EINVAL)
      ensures Elements == if status == OK then old(Elements)[index := x] else old(Elements)
    {
      if index >= endIndex - startIndex {
        return EINVAL;
      }
      Store(index + startIndex, Front + index, x);
      Use(startIndex, endIndex, Front, Back);
      return OK;
    }

    /** The array holds the cells from Front up to r over what it held before. */
    ghost predicate CopiedUpTo(arr: array<T>, before: seq<T>, r: nat)
      reads this, arr
    {
      && Front <= r <= |Flatten(Rows)| && r - Front <= |before|
      && arr[..] == Spliced(before, 0, Flatten(Rows)[Front..r])
    }

    lemma PartOfRow(q: nat, inner: nat, count: nat, r: nat)
      requires blockSize > 0 && Rectangular(Rows, blockSize)
      requires q < |Rows| && inner + count <= blockSize && r == Span(q, blockSize) + inner
      ensures r + count <= |Flatten(Rows)|
      ensures Flatten(Rows)[r..r + count] == Rows[q][inner..inner + count]
    {
      FlattenRow(Rows, blockSize, q);
      hide Flatten, Span;
      PartOfPart(Flatten(Rows), Span(q, blockSize), blockSize, inner, count);
    }

    /** memcpy of count cells of one block, from offset inner on, into arr. */
    method CopyFromBlock(arr: array<T>, offset: nat, blockIndex: nat, inner: nat, count: nat, ghost q: nat)
      requires blockSize > 0 && Owns(allocStart, Blocks, Rows) && arr !in Blocks
      requires blockIndex == allocStart + q && q < |Rows| && inner + count <= blockSize
      requires offset + count <= arr.Length
      modifies arr
      ensures Span(q, blockSize) + inner + count <= |Flatten(Rows)|
      ensures arr[..] == Spliced(old(arr[..]), offset,
                                 Flatten(Rows)[Span(q, blockSize) + inner..Span(q, blockSize) + inner + count])
    {
      hide Flatten, Span;
      assert data[blockIndex] == Blocks[q];
      PartOfRow(q, inner, count, Span(q, blockSize) + inner);
      CopyCells(arr, offset, data[blockIndex], inner, count);
    }

    /** The same for the next cells to copy. */
    method CopyNext(arr: array<T>, offset: nat, blockIndex: nat, inner: nat, count: nat,
                    ghost q: nat, ghost before: seq<T>)
      requires blockSize > 0 && Owns(allocStart, Blocks, Rows) && arr !in Blocks
      requires blockIndex == allocStart + q && q < |Rows| && inner + count <= blockSize
      requires Front + offset == Span(q, blockSize) + inner && offset + count <= arr.Length
      requires CopiedUpTo(arr, before, Front + offset)
      modifies arr
      ensures CopiedUpTo(arr, before, Front + offset + count)
    {
      hide Owns, Flatten, Span;
      CopyFromBlock(arr, offset, blockIndex, inner, count, q);
      SplicedTwice(before, Flatten(Rows), Front, Front + offset, Front + offset + count);
    }

    /** memcpy of the whole blocks from lo up to but not including hi. */
    method CopyBlocks(arr: array<T>, start: nat, lo: nat, hi: nat,
                      ghost q: nat, ghost q1: nat, ghost before: seq<T>) returns (offset: nat)
      requires blockSize > 0 && Owns(allocStart, Blocks, Rows)
      requires arr !in Blocks && arr as object != data && arr as object != this
      requires lo == allocStart + q && hi == allocStart + q1 && q <= q1 < |Rows|
      requires Front + start == Span(q, blockSize) && Span(q1, blockSize) <= Front + arr.Length
      requires CopiedUpTo(arr, before, Front + start)
      modifies arr
      ensures Front + offset == Span(q1, blockSize) && CopiedUpTo(arr, before, Front + offset)
    {
      hide Owns, Flatten, Spliced;
      offset := start;
      ghost var k := q;
      var i := lo;
      while i < hi
        invariant q <= k <= q1 && i == allocStart + k && Front + offset == Span(k, blockSize)
        invariant CopiedUpTo(arr, before, Front + offset)
      {
        SpanOrder(k + 1, q1, blockSize);
        CopyNext(arr, offset, i, 0, blockSize, k, before);
        offset, i, k := offset + blockSize, i + 1, k + 1;
      }
    }

    /** The blocks and offsets of the first and the last element. */
    lemma Ends() returns (q0: nat, o0: nat, q1: nat, o1: nat)
      requires Valid() && Elements != []
      ensures startIndex / blockSize == allocStart + q0 && startIndex % blockSize == o0 < blockSize
      ensures (endIndex - 1) / blockSize == allocStart + q1 && (endIndex - 1) % blockSize == o1 < blockSize
      ensures Front == Span(q0, blockSize) + o0 && Back == Span(q1, blockSize) + o1 + 1
      ensures q0 <= q1 < |Rows|
      ensures q0 < q1 ==> Span(q0 + 1, blockSize) <= Span(q1, blockSize)
    {
      hide Flatten, Owns;
      q0, o0 := Geometry(allocStart, |Rows|, blockSize, Front);
      q1, o1 := Geometry(allocStart, |Rows|, blockSize, Back - 1);
      SpanOrder(q0 + 1, q1, blockSize);
      SpanOrder(q1 + 1, q0, blockSize);
    }

    /** The three copies: the first block, the whole blocks, the last block. */
    method CopySpans(arr: array<T>, startBlockIndex: nat, startInnerIndex: nat, firstBlockLength: nat,
                     endBlockIndex: nat, endInnerIndex: nat, ghost q0: nat, ghost q1: nat)
      requires blockSize > 0 && Owns(allocStart, Blocks, Rows) && |Flatten(Rows)| == Span(|Rows|, blockSize)
      requires arr !in Blocks && arr as object != data && arr as object != this
      requires Front < Back <= |Flatten(Rows)| && Back - Front <= arr.Length
      requires startBlockIndex == allocStart + q0 && endBlockIndex == allocStart + q1
      requires q0 <= q1 < |Rows| && startInnerIndex < blockSize && endInnerIndex < blockSize
      requires Front == Span(q0, blockSize) + startInnerIndex
      requires Back == Span(q1, blockSize) + endInnerIndex + 1
      requires q0 < q1 ==> Span(q0 + 1, blockSize) <= Span(q1, blockSize)
      requires firstBlockLength == if q0 == q1 then Back - Front else blockSize - startInnerIndex
      modifies arr
      ensures CopiedUpTo(arr, old(arr[..]), Back)
    {
      hide Owns, Flatten, Spliced;
      ghost var before := arr[..];
      SplicedNone(before, Flatten(Rows), Front);
      CopyNext(arr, 0, startBlockIndex, startInnerIndex, firstBlockLength, q0, before);
      if endBlockIndex != startBlockIndex {
        var offset := CopyBlocks(arr, firstBlockLength, startBlockIndex + 1, endBlockIndex,
                                 q0 + 1, q1, before);
        CopyNext(arr, offset, endBlockIndex, 0, endInnerIndex + 1, q1, before);
      }
    }

    /** Copies the whole sequence to the start of arr, block by block. */
    method CopyToArray(arr: array<T>)
      requires Valid() && |Elements| <= arr.Length && arr !in Repr
      modifies arr
      ensures arr[..] == Spliced(old(arr[..]), 0, Elements)
    {
      var size := endIndex - startIndex;
      var startBlockIndex, startInnerIndex := startIndex / blockSize, startIndex % blockSize;
      var endBlockIndex, endInnerIndex := Decrement(endIndex) / blockSize, Decrement(endIndex) % blockSize;
      var firstBlockLength := if blockSize - startInnerIndex < size then blockSize - startInnerIndex else size;
      if size == 0 {
        assert Spliced(arr[..], 0, Elements) == arr[..];
        return;
      }
      ghost var q0, o0, q1, o1 := Ends();
      CopySpans(arr, startBlockIndex, startInnerIndex, firstBlockLength, endBlockIndex, endInnerIndex, q0, q1);
    }

    /** deque_init: null for a bad element size or when an allocation fails. */
    static method Init(dataSize: nat, structOk: bool, tableOk: bool, blockOk: bool) returns (d: Deque?<T>)
      requires dataSize <= SIZE_MAX
      ensures d == null <==>
        dataSize == 0 || BlockElements(dataSize) * dataSize > SIZE_MAX || !structOk || !tableOk || !blockOk
      ensures d != null ==> d.Valid() && fresh(d.Repr) && d.Elements == [] && d.Peak == 0
      ensures d != null ==> d.blockSize == BlockElements(dataSize)
    {
      if dataSize == 0 || !structOk {
        return null;
      }
      var size := BlockElements(dataSize);
      WrappedProduct(size, dataSize);
      if (size * dataSize % (SIZE_MAX + 1)) / dataSize != size || !tableOk || !blockOk {
        return null;
      }
      d := new Deque<T>.Allocated(size);
    }

    /** Takes a new table with one block as its whole memory. */
    method Install(table: array<array?<T>>, block: array<T>, start: nat, slot: nat)
      requires MIN_BLOCK_ELEMENT_SIZE <= blockSize && Span(INITIAL_BLOCK_COUNT, blockSize) <= SIZE_MAX
      requires table.Length == INITIAL_BLOCK_COUNT && block.Length == blockSize && slot < INITIAL_BLOCK_COUNT
      requires table as object != block && table as object != this && block as object != this
      requires start == Span(slot, blockSize)
      modifies this, table
      ensures Valid() && Repr == {this, table, block}
      ensures Elements == [] && Peak == old(Peak) && blockSize == old(blockSize)
    {
      hide Flatten, Rectangular, Span, WholeBlocks, Owns;
      OneRow(block[..], blockSize);
      table[slot] := block;
      startIndex, endIndex := start, start;
      blockCount := INITIAL_BLOCK_COUNT;
      allocStart, allocEnd := slot, slot;
      data := table;
      Repr := {this, table, block};
      Blocks, Rows, Front, Back, Elements := [block], [block[..]], 0, 0, [];
      OwnsOne(block, slot);
    }

    /** A table with one block in it, which the deque owns. */
    lemma OwnsOne(block: array<T>, slot: nat)
      requires this as object != data && this as object != block && data as object != block
      requires data.Length == blockCount && slot < blockCount && data[slot] == block && block.Length == blockSize
      requires Repr == {this, data, block}
      ensures Owns(slot, [block], [block[..]])
    {
      assert data[slot..slot + 1] == [block];
    }

    /** Back to the state after initialisation; the old blocks are given up. */
    method Clear(tableOk: bool, blockOk: bool) returns (status: Status)
      requires Valid()
      modifies this
      ensures Valid() && fresh(Repr - old(Repr)) && Peak == old(Peak) && blockSize == old(blockSize)
      ensures status == (if tableOk && blockOk then OK else ENOMEM)
      ensures Elements == if status == OK then [] else old(Elements)
    {
      if !tableOk || !blockOk {
        return ENOMEM;
      }
      var table := new array?<T>[INITIAL_BLOCK_COUNT];
      var block := new T[blockSize];
      var start := blockSize * INITIAL_BLOCK_COUNT / 2;
      SpanIsProduct(4, blockSize);
      SpanOrder(INITIAL_BLOCK_COUNT, blockCount, blockSize);
      SpanUnique(start, 4, 0, blockSize);
      Install(table, block, start, start / blockSize);
      return OK;
    }

    method PerformGrowing(op: Op<T>, tableOk: bool, blockOk: bool) returns (reply: Reply<T>)
      requires Valid() && (op.PushFrontOp? || op.PushBackOp? || op.ClearOp?)
      modifies Repr
      ensures Valid() && fresh(Repr - old(Repr)) && blockSize == old(blockSize)
      ensures Elements == Next(old(Elements), op, reply) && Peak == Max(old(Peak), |Elements|)
      ensures OutOfMemory(op, reply) || reply == Answer(old(Elements), op)
      ensures OutOfMemory(op, reply) && tableOk && blockOk ==> blockCount == SIZE_MAX / blockSize
      ensures reply == Done(ENOMEM) ==> !tableOk || !blockOk
    {
      var status;
      match op {
        case PushFrontOp(x) => status := PushFront(x, tableOk, blockOk);
        case PushBackOp(x) => status := PushBack(x, tableOk, blockOk);
        case ClearOp => status := Clear(tableOk, blockOk);
      }
      reply := Done(status);
    }

    method PerformReading(op: Op<T>) returns (reply: Reply<T>)
      requires op.GetAtOp? || op.CopyOp?
      requires Valid()
      modifies Repr
      ensures Valid() && fresh(Repr - old(Repr)) && blockSize == old(blockSize)
      ensures Elements == Next(old(Elements), op, reply) && Peak == Max(old(Peak), |Elements|)
      ensures OutOfMemory(op, reply) || reply == Answer(old(Elements), op)
    {
      match op
      case GetAtOp(index) => var x := GetAt(index); reply := Got(x);
      case CopyOp =>
        var arr := new T[endIndex - startIndex];
        CopyToArray(arr);
        reply := Copied(arr[..]);
    }

    /** Performs one operation. */
    method Perform(op: Op<T>, tableOk: bool, blockOk: bool) returns (reply: Reply<T>)
      requires Valid()
      modifies Repr
      ensures Valid() && fresh(Repr - old(Repr)) && blockSize == old(blockSize)
      ensures Elements == Next(old(Elements), op, reply) && Peak == Max(old(Peak), |Elements|)
      ensures OutOfMemory(op, reply) || reply == Answer(old(Elements), op)
      ensures OutOfMemory(op, reply) && tableOk && blockOk ==> blockCount == SIZE_MAX / blockSize
      ensures reply == Done(ENOMEM) ==> !tableOk || !blockOk
    {
      match op
      case PopFrontOp => var x := PopFront(); reply := Got(x);
      case PopBackOp => var x := PopBack(); reply := Got(x);
      case SetAtOp(index, x) => var status := SetAt(index, x); reply := Done(status);
      case GetAtOp(_) => reply := PerformReading(op);
      case CopyOp => reply := PerformReading(op);
      case _ => reply := PerformGrowing(op, tableOk, blockOk);
    }

    /** Any run, from any state, whatever the allocator does, replies as a plain
        sequence does, and its memory follows the peak size. */
    method Run(ops: seq<Op<T>>, tableOk: seq<bool>, blockOk: seq<bool>) returns (replies: seq<Reply<T>>)
      requires Valid() && |tableOk| == |blockOk| == |ops|
      modifies Repr
      ensures Valid() && fresh(Repr - old(Repr)) && blockSize == old(blockSize)
      ensures |replies| == |ops| && Explained(old(Elements), ops, replies)
      ensures forall i | 0 <= i < |ops| :: replies[i] == Done(ENOMEM) ==> !tableOk[i] || !blockOk[i]
      ensures Elements == Final(old(Elements), ops, replies)
      ensures Peak == Max(old(Peak), PeakSize(old(Elements), ops, replies))
    {
      replies := [];
      ghost var start := Elements;
      for i := 0 to |ops|
        invariant Valid() && fresh(Repr - old(Repr)) && blockSize == old(blockSize)
        invariant |replies| == i && Explained(start, ops[..i], replies)
        invariant forall j | 0 <= j < i :: replies[j] == Done(ENOMEM) ==> !tableOk[j] || !blockOk[j]
        invariant Elements == Final(start, ops[..i], replies)
        invariant Peak == Max(old(Peak), PeakSize(start, ops[..i], replies))
      {
        var reply := Perform(ops[i], tableOk[i], blockOk[i]);
        RunStep(start, ops, i, replies, reply);
        replies := replies + [reply];
      }
      assert ops[..|ops|] == ops;
    }

    /** The memory bound, in the program's own arithmetic. */
    lemma MemoryBound()
      requires Valid()
      ensures allocEnd - allocStart + 1 <= Peak / blockSize + 2
      ensures data.Length <= 3 * (Peak / blockSize + 10) / 2
    {
      WholeBlocksIsQuotient(Peak, blockSize);
    }
  }
}
