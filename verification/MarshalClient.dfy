/** The client's side of a call, in drpc_client_call_internal: the variable
    arguments become an array, and what comes back meets the caller's objects. */
module MarshalClient {
  import opened Wrappers
  import opened Marshal
  import Bytes
  import Wire
  import Codec
  import Containers
  import DStructBuffers

  // ---------- variable arguments ----------

  /** What d_array_set has a case for. */
  predicate Sendable(t: Tag) {
    VOID < t <= QUEUE
  }

  /** A sized buffer takes its length from the next variable argument; no other
      argument has one. */
  predicate Sized(args: seq<Argument>) {
    forall i | 0 <= i < |args| :: args[i].tag != SIZEDBUF ==> args[i].len == 0
  }

  /** Arguments of types that are all passed on. */
  predicate Plain(args: seq<Argument>) {
    Sized(args) && forall i | 0 <= i < |args| :: Sendable(args[i].tag)
  }

  /** The arguments that get a place in the array. */
  function Sent(args: seq<Argument>): (sent: seq<Argument>)
    ensures |sent| <= |args|
  {
    if |args| == 0 then []
    else
      var a := args[|args| - 1];
      Sent(args[..|args| - 1]) + if Sendable(a.tag) then [a] else []
  }

  predicate Floating(t: Tag) {
    t == FLOAT || t == DOUBLE
  }

  /** The bytes that d_array_set takes of an argument that is not a pointer. */
  function Width(t: Tag): nat {
    if t <= UINT8 then 1 else if t <= UINT16 then 2 else if t <= UINT32 || t == FLOAT then 4 else 8
  }

  /** What the array keeps of an argument's value. A floating-point number is first
      converted to an integer, whose bytes are then taken for the number: cast says
      what that makes of it. */
  function Kept(a: Argument, cast: (Tag, nat) -> nat): nat {
    if IsPointer(a.tag) then a.value
    else (if Floating(a.tag) then cast(a.tag, a.value) else a.value) % Bytes.Power256(Width(a.tag))
  }

  /** The value survives if and only if it fits the C type and, if it is a
      floating-point number, the detour through an integer; a pointer always does. */
  lemma KeptExactly(a: Argument, cast: (Tag, nat) -> nat)
    ensures a.tag == 1 || a.tag == 2 ==> (Kept(a, cast) == a.value <==> a.value < 0x100)
    ensures a.tag == 3 || a.tag == 4 ==> (Kept(a, cast) == a.value <==> a.value < 0x1_0000)
    ensures a.tag == 5 || a.tag == 6 ==> (Kept(a, cast) == a.value <==> a.value < 0x1_0000_0000)
    ensures a.tag == 7 || a.tag == 8 ==> (Kept(a, cast) == a.value <==> a.value < 0x1_0000_0000_0000_0000)
    ensures a.tag == 9 ==> Kept(a, cast) == cast(9, a.value) % 0x1_0000_0000
    ensures a.tag == 10 ==> Kept(a, cast) == cast(10, a.value) % 0x1_0000_0000_0000_0000
    ensures 11 <= a.tag <= 15 ==> Kept(a, cast) == a.value
  {
    PowersOf256();
    hide Bytes.Power256;
    Remainder(a.value, Bytes.Power256(Width(a.tag)));
  }

  lemma PowersOf256()
    ensures Bytes.Power256(1) == 0x100 && Bytes.Power256(2) == 0x1_0000 && Bytes.Power256(4) == 0x1_0000_0000
    ensures Bytes.Power256(8) == 0x1_0000_0000_0000_0000
  {
  }

  /** The bytes of a scalar that are sent are as many as the C type has. */
  lemma ScalarLength(a: Argument, cast: (Tag, nat) -> nat, e: Codec.Element)
    requires Becomes(a, cast, e) && 1 <= a.tag <= 10
    ensures e.Packed? && |e.packet.payload| ==
      if a.tag <= 2 then 1 else if a.tag <= 4 then 2 else if a.tag <= 6 || a.tag == 9 then 4 else 8
  {
    hide Kept, Wire.Little;
    PointerTags(e);
  }

  lemma Remainder(n: nat, q: nat)
    requires q > 0
    ensures 0 <= n % q < q && (n % q == n <==> n < q)
  {
  }

  function KeptArgument(a: Argument, cast: (Tag, nat) -> nat): Argument {
    a.(value := Kept(a, cast))
  }

  /** The array of arguments: a place stays empty when its type is not passed on. */
  function Places(args: seq<Argument>, cast: (Tag, nat) -> nat): seq<Option<Argument>> {
    seq(|args|, i requires 0 <= i < |args| => if Sendable(args[i].tag) then Some(KeptArgument(args[i], cast)) else None)
  }

  /** No pointer among the arguments is null. */
  predicate NoNull(args: seq<Argument>) {
    forall i | 0 <= i < |args| :: IsPointer(args[i].tag) ==> args[i].value != 0
  }

  /** The client's entry for an argument that may come back. */
  function Expected(a: Argument): Update {
    Update(a.tag, a.value, if a.tag == SIZEDBUF then a.len else 0, 0)
  }

  function ExpectedAll(args: seq<Argument>): seq<Update> {
    seq(|args|, i requires 0 <= i < |args| => Expected(args[i]))
  }

  /** What one argument takes of the variable arguments. */
  function Taken(a: Argument): seq<Slot> {
    if Sendable(a.tag) then SlotsOfArgument(a) else []
  }

  lemma SentLast(args: seq<Argument>, a: Argument)
    ensures Flat(Sent(args + [a])) == Flat(Sent(args)) + Taken(a)
    ensures Sent(args + [a]) == if Sendable(a.tag) then Sent(args) + [a] else Sent(args)
  {
    hide Flat, SlotsOfArgument;
    assert (args + [a])[..|args|] == args;
    FlatLast(Sent(args), a);
    assert Sent(args) + [] == Sent(args);
  }

  lemma {:induction false} SentSplits(a: seq<Argument>, b: seq<Argument>)
    ensures Sent(a + b) == Sent(a) + Sent(b)
    decreases |b|
  {
    hide Sent, Flat, Taken;
    if |b| == 0 {
      NoneSent();
      assert a + b == a && b == [];
    } else {
      var head, last := b[..|b| - 1], b[|b| - 1];
      assert b == head + [last] && a + b == (a + head) + [last];
      SentSplits(a, head);
      SentLast(head, last);
      SentLast(a + head, last);
    }
  }

  lemma NoneSent()
    ensures Sent([]) == [] && Flat([]) == [] && Pointers([]) == []
  {
  }

  lemma {:induction false} FlatSplits(a: seq<Argument>, b: seq<Argument>)
    ensures Flat(a + b) == Flat(a) + Flat(b)
    decreases |b|
  {
    hide SlotsOfArgument, Flat;
    if |b| == 0 {
      NoneSent();
      assert a + b == a && b == [];
    } else {
      var head, last := b[..|b| - 1], b[|b| - 1];
      assert b == head + [last] && a + b == (a + head) + [last];
      FlatSplits(a, head);
      FlatLast(head, last);
      FlatLast(a + head, last);
    }
  }

  /** Where the variable arguments of one parameter are. */
  lemma TakenAt(args: seq<Argument>, i: nat)
    requires i < |args|
    ensures var k, s, all := |Flat(Sent(args[..i]))|, Taken(args[i]), Flat(Sent(args));
      k + |s| <= |all| && all[k..k + |s|] == s && |Flat(Sent(args[..i + 1]))| == k + |s|
  {
    hide Taken, Flat, Sent;
    var upTo, after := args[..i + 1], args[i + 1..];
    assert upTo + after == args && upTo == args[..i] + [args[i]];
    SentSplits(upTo, after);
    FlatSplits(Sent(upTo), Sent(after));
    SentLast(args[..i], args[i]);
    var k, s := |Flat(Sent(args[..i]))|, Taken(args[i]);
    assert Flat(Sent(args))[k..k + |s|] == Flat(Sent(upTo))[k..k + |s|];
  }

  function ValueOf(s: Slot): nat {
    match s
    case Blank(_) => 0
    case Given(value) => value
    case Pointer(value) => value
    case Size(len) => len
    case Scalar(_, value) => value
  }

  /** The argument of one parameter, taken from where the next one stands. */
  method ReadArgument(tag: Tag, varargs: seq<Slot>, at: nat, cast: (Tag, nat) -> nat, ghost a: Argument)
    returns (place: Option<Argument>, next: nat)
    requires a.tag == tag && (tag != SIZEDBUF ==> a.len == 0)
    requires at + |Taken(a)| <= |varargs| && varargs[at..at + |Taken(a)|] == Taken(a)
    ensures place == (if Sendable(tag) then Some(KeptArgument(a, cast)) else None) && next == at + |Taken(a)|
  {
    next, place := at, None;
    if Sendable(tag) {
      var s := varargs[at..at + |Taken(a)|];
      assert varargs[at] == s[0];
      var value := ValueOf(varargs[at]);
      next := at + 1;
      var len := 0;
      if tag == SIZEDBUF {
        assert varargs[next] == s[1];
        len := ValueOf(varargs[next]);
        next := next + 1;
      }
      if Floating(tag) {
        value := cast(tag, value);
      }
      if !IsPointer(tag) {
        value := value % Bytes.Power256(Width(tag));
      }
      place := Some(Argument(tag, value, len));
    }
  }

  /** The loop over the variable arguments. It fails at the assertion of d_array_set
      if and only if a pointer is null. Otherwise the array gets what it keeps of each
      argument that was passed, at its place, and the pointers among them are expected
      to come back. A parameter of another type takes nothing and leaves its place
      empty. */
  method ReadArguments(prototype: seq<Tag>, varargs: seq<Slot>, cast: (Tag, nat) -> nat, ghost args: seq<Argument>)
    returns (ok: bool, arguments: seq<Option<Argument>>, repackable: seq<Update>)
    requires Sized(args) && TagsOf(args) == prototype && varargs == Flat(Sent(args))
    ensures ok <==> NoNull(args)
    ensures ok <==> forall i | 0 <= i < |args| :: 11 <= args[i].tag <= 15 ==> args[i].value != 0
    ensures ok ==> arguments == Places(args, cast) && repackable == ExpectedAll(Pointers(args))
  {
    hide Taken, Flat, Sent, Kept;
    ok, arguments, repackable := true, [], [];
    var next: nat := 0;
    NoneSent();
    assert args[..0] == [];
    for i := 0 to |prototype|
      invariant NoNull(args[..i])
      invariant arguments == Places(args, cast)[..i] && next == |Flat(Sent(args[..i]))|
      invariant repackable == ExpectedAll(Pointers(args[..i]))
    {
      TakenAt(args, i);
      assert TagsOf(args)[i] == prototype[i];
      assert args[..i + 1][..i] == args[..i];
      var place;
      place, next := ReadArgument(prototype[i], varargs, next, cast, args[i]);
      if place.Some? && IsPointer(prototype[i]) {
        PointerKept(args[i], cast);
        if place.value.value == 0 {
          ok := false;
          return;
        }
        repackable := repackable + [Update(prototype[i], place.value.value, place.value.len, 0)];
      }
      arguments := arguments + [place];
    }
    assert args[..|args|] == args;
  }

  lemma PointerKept(a: Argument, cast: (Tag, nat) -> nat)
    requires IsPointer(a.tag)
    ensures Sendable(a.tag) && KeptArgument(a, cast) == a
  {
  }

  // ---------- what arrives ----------

  /** The types that the server reads off the array: one for each element that is
      there, from index 0 on, and void at an empty place. */
  function TypesRead(args: seq<Argument>): (tags: seq<Tag>)
    ensures |tags| == |Sent(args)|
  {
    seq(|Sent(args)|, i requires 0 <= i < |Sent(args)| => if Sendable(args[i].tag) then args[i].tag else VOID)
  }

  /** How the array gets to the server: it is handed over, or its bytes are. */
  datatype Transport = SameArray | Bytes(cells: seq<Codec.Cell>, rest: seq<Bytes.Byte>)

  /** An array on its way: the elements that were put into it, and the value of what
      is at an address on the server's side. */
  datatype Arrival = Arrival(elements: map<nat, Codec.Element>, content: nat -> Codec.Value, transport: Transport)

  /** The element that an argument becomes; what a pointer points to is arbitrary. */
  ghost predicate Becomes(a: Argument, cast: (Tag, nat) -> nat, e: Codec.Element) {
    && !e.Hole? && Codec.WellFormed(e) && Codec.TagOf(e) as nat == a.tag
    && (e.Packed? ==> e.packet == Wire.Packet(e.tag, Wire.Little(Kept(a, cast), Width(a.tag))))
    && (e.SizedBuf? ==> |e.bytes| == a.len)
  }

  /** The elements of the array are those of the arguments that are passed on. */
  ghost predicate Elements(args: seq<Argument>, cast: (Tag, nat) -> nat, m: map<nat, Codec.Element>) {
    && |args| <= Wire.TWO_63 && (forall i: nat :: i in m <==> i < |args| && Sendable(args[i].tag))
    && (forall i | i in m :: Becomes(args[i], cast, m[i]))
  }

  /** The array as the server can read it, if at all. */
  function ServersArray(arrival: Arrival): Option<map<nat, Codec.Value>> {
    match arrival.transport
    case SameArray => Some(Containers.MeaningOfAll(arrival.elements))
    case Bytes(cells, rest) =>
      var read := Codec.DecodeValue(Wire.ARRAY, Wire.EncodePacket(Codec.Inner(Codec.Array(cells))) + rest);
      if read.Some? && read.value.Cells? then Some(read.value.cells) else None
  }

  /** d_array_get of one element: a pointer to a value like it, or what its bytes say. */
  predicate ReadAs(r: Argument, v: Codec.Value, content: nat -> Codec.Value) {
    && r.tag == DStructBuffers.ValueTag(v) as nat
    && (if v.Simple? then r.value == Wire.FromLittle(v.packet.payload) else content(r.value) == v)
    && r.len == if v.Buffer? then |v.bytes| else 0
  }

  /** The arguments that the server has: one for each element of the array. */
  ghost predicate Arrived(args: seq<Argument>, cast: (Tag, nat) -> nat, received: seq<Argument>, arrival: Arrival) {
    && Elements(args, cast, arrival.elements)
    && (arrival.transport.Bytes? ==>
          && Containers.InSomeOrder(arrival.transport.cells, arrival.elements)
          && Codec.Fits(Codec.Array(arrival.transport.cells)))
    && (ServersArray(arrival).Some? ==> HasRead(received, ServersArray(arrival).value, arrival.content))
  }

  ghost predicate HasRead(received: seq<Argument>, cells: map<nat, Codec.Value>, content: nat -> Codec.Value) {
    && |received| == |cells|
    && forall i | 0 <= i < |received| ::
         if i in cells then ReadAs(received[i], cells[i], content) else received[i].tag == VOID
  }

  /** What the server has for an argument: of a pointer one to an equal value, of the
      others exactly what the client's array kept. */
  predicate SameValue(r: Argument, a: Argument, cast: (Tag, nat) -> nat, e: Codec.Element,
                      content: nat -> Codec.Value)
  {
    && r.tag == a.tag && r.len == a.len
    && if IsPointer(a.tag) then content(r.value) == Codec.Meaning(e) else r.value == Kept(a, cast)
  }

  lemma {:induction false} HowManySent(args: seq<Argument>, sent: set<nat>)
    requires forall i: nat :: i in sent <==> i < |args| && Sendable(args[i].tag)
    ensures |sent| == |Sent(args)|
  {
    if |args| == 0 {
      assert sent == {};
    } else {
      HowManySent(args[..|args| - 1], sent - {|args| - 1});
    }
  }

  lemma TagOfMeaning(e: Codec.Element)
    requires Codec.WellFormed(e)
    ensures DStructBuffers.ValueTag(Codec.Meaning(e)) == Codec.TagOf(e)
  {
    hide Codec.SetAll, Codec.DropNothing;
  }

  /** Whichever way the array goes, the server reads its elements. */
  lemma ArrayArrives(args: seq<Argument>, cast: (Tag, nat) -> nat, received: seq<Argument>, arrival: Arrival)
    requires Arrived(args, cast, received, arrival)
    ensures HasRead(received, Containers.MeaningOfAll(arrival.elements), arrival.content)
  {
    hide Codec.Inner, Codec.Meaning, Codec.WellFormed, Codec.Fits, Codec.TagOf, Codec.DecodeValue,
         Wire.EncodePacket, Containers.InSomeOrder, Containers.MeaningOfAll, HasRead;
    if arrival.transport.Bytes? {
      var m, cells := arrival.elements, arrival.transport.cells;
      Containers.CellsWellFormed(cells, m);
      Codec.RoundTrip(Codec.Array(cells), arrival.transport.rest);
      ArrayTag(cells);
      Containers.ArrayMeaning(cells, m);
    }
  }

  /** One element read back is the argument that it was made of. */
  lemma ReadBack(r: Argument, a: Argument, cast: (Tag, nat) -> nat, e: Codec.Element, content: nat -> Codec.Value)
    requires Becomes(a, cast, e) && ReadAs(r, Codec.Meaning(e), content) && (a.tag != SIZEDBUF ==> a.len == 0)
    ensures SameValue(r, a, cast, e, content)
  {
    hide Kept, Codec.SetAll, Codec.DropNothing, Wire.Little, Wire.FromLittle, Codec.WellFormed;
    TagOfMeaning(e);
    PointerTags(e);
    if e.Packed? {
      KeptFits(a, cast);
      Wire.LittleRoundTrip(Kept(a, cast), Width(a.tag));
    }
  }

  lemma KeptFits(a: Argument, cast: (Tag, nat) -> nat)
    requires !IsPointer(a.tag)
    ensures Kept(a, cast) < Bytes.Power256(Width(a.tag))
  {
    Remainder(a.value, Bytes.Power256(Width(a.tag)));
    Remainder(cast(a.tag, a.value), Bytes.Power256(Width(a.tag)));
  }

  lemma PointerTags(e: Codec.Element)
    requires Codec.WellFormed(e) && !e.Hole?
    ensures e.Packed? <==> !IsPointer(Codec.TagOf(e) as nat)
    ensures e.Packed? <==> Codec.Meaning(e).Simple?
    ensures e.Packed? ==> Codec.Meaning(e).packet == e.packet
    ensures e.SizedBuf? <==> Codec.TagOf(e) as nat == SIZEDBUF
    ensures e.SizedBuf? <==> Codec.Meaning(e).Buffer?
    ensures e.SizedBuf? ==> Codec.Meaning(e).bytes == e.bytes
  {
  }

  /** The server has the types of the client's arguments, void at empty places, and
      their values. */
  lemma ArgumentsArrive(args: seq<Argument>, cast: (Tag, nat) -> nat, received: seq<Argument>, arrival: Arrival)
    requires Arrived(args, cast, received, arrival) && Sized(args)
    ensures TagsOf(received) == TypesRead(args)
    ensures forall i: nat | i < |args| && Sendable(args[i].tag) :: i in arrival.elements
    ensures forall i | 0 <= i < |received| && Sendable(args[i].tag) ::
      SameValue(received[i], args[i], cast, arrival.elements[i], arrival.content)
  {
    hide Sent, Codec.Meaning, SameValue;
    ArrayArrives(args, cast, received, arrival);
    var m := arrival.elements;
    ArrivedInFull(args, cast, received, arrival);
    forall i | 0 <= i < |received|
      ensures received[i].tag == if Sendable(args[i].tag) then args[i].tag else VOID
      ensures Sendable(args[i].tag) ==> SameValue(received[i], args[i], cast, m[i], arrival.content)
    {
      ArgumentArrives(args, cast, received, arrival, i);
    }
  }

  lemma ArrivedInFull(args: seq<Argument>, cast: (Tag, nat) -> nat, received: seq<Argument>, arrival: Arrival)
    requires Elements(args, cast, arrival.elements)
    requires HasRead(received, Containers.MeaningOfAll(arrival.elements), arrival.content)
    ensures |received| == |Sent(args)|
  {
    hide Codec.Meaning, Becomes, ReadAs;
    HowManySent(args, arrival.elements.Keys);
    assert Containers.MeaningOfAll(arrival.elements).Keys == arrival.elements.Keys;
  }

  lemma ArgumentArrives(args: seq<Argument>, cast: (Tag, nat) -> nat, received: seq<Argument>, arrival: Arrival, i: nat)
    requires Elements(args, cast, arrival.elements) && Sized(args) && i < |received| <= |args|
    requires HasRead(received, Containers.MeaningOfAll(arrival.elements), arrival.content)
    ensures received[i].tag == if Sendable(args[i].tag) then args[i].tag else VOID
    ensures Sendable(args[i].tag) ==> SameValue(received[i], args[i], cast, arrival.elements[i], arrival.content)
  {
    hide Codec.Meaning, Becomes, ReadAs;
    if i in arrival.elements {
      ReadBack(received[i], args[i], cast, arrival.elements[i], arrival.content);
    }
  }

  lemma ArrayTag(cells: seq<Codec.Cell>)
    ensures Codec.TagOf(Codec.Array(cells)) == Wire.ARRAY
  {
  }

  /** Nothing but void where types are not passed on: if there is none, the
      arguments that are passed on are the first ones. */
  lemma SentComeFirst(args: seq<Argument>)
    requires VOID !in TypesRead(args)
    ensures Sent(args) == args[..|Sent(args)|] && TagsOf(Sent(args)) == TypesRead(args)
    ensures Pointers(args) == Pointers(Sent(args))
  {
    var k := |Sent(args)|;
    forall i | 0 <= i < k ensures Sendable(args[i].tag) {
      assert TypesRead(args)[i] != VOID;
    }
    AllSent(args[..k]);
    assert args == args[..k] + args[k..];
    SentSplits(args[..k], args[k..]);
    assert Sent(args[k..]) == [];
    PointersSent(args);
  }

  lemma {:induction false} AllSent(args: seq<Argument>)
    requires forall i | 0 <= i < |args| :: Sendable(args[i].tag)
    ensures Sent(args) == args
  {
    if |args| > 0 {
      AllSent(args[..|args| - 1]);
    }
  }

  lemma {:induction false} PointersSent(args: seq<Argument>)
    ensures Pointers(args) == Pointers(Sent(args))
  {
    if |args| > 0 {
      var head, a := args[..|args| - 1], args[|args| - 1];
      assert args == head + [a];
      PointersSent(head);
      PointersLast(head, a);
      SentLast(head, a);
      PointersLast(Sent(head), a);
    }
  }

  /** Plain arguments all get a place. */
  lemma PlainPlaces(args: seq<Argument>, cast: (Tag, nat) -> nat)
    requires Plain(args)
    ensures Sent(args) == args
    ensures Places(args, cast) == seq(|args|, i requires 0 <= i < |args| => Some(KeptArgument(args[i], cast)))
  {
    AllSent(args);
    hide Sent, Kept;
  }

  // ---------- what comes back ----------

  /** What the client hands to its caller: which of the objects it passed gets
      which of the objects that came back, and the pointer that was returned. */
  datatype Outcome = Outcome(updated: seq<(nat, nat)>, returned: Option<nat>)

  /** The client's own object for the argument that was returned, if it is among the
      first n; never a sized buffer. */
  function Returned(repacked: seq<Update>, repackable: seq<Update>, returnIs: int, n: nat): Option<nat>
    requires n <= |repacked| && n <= |repackable|
  {
    if 0 <= returnIs < n && repacked[returnIs].tag != SIZEDBUF then Some(repackable[returnIs].ptr) else None
  }

  /** The loop over the arguments that came back. It fails at an assertion when
      one is not the next that the client expects. */
  method TakeBack(repacked: seq<Update>, repackable: seq<Update>, returnIs: int)
    returns (ok: bool, outcome: Outcome)
    ensures ok <==> |repacked| <= |repackable| && forall i | 0 <= i < |repacked| :: repackable[i].tag == repacked[i].tag
    ensures ok && (forall i | 0 <= i < |repacked| :: IsPointer(repacked[i].tag)) ==>
      && |outcome.updated| == |repacked|
      && (forall i | 0 <= i < |repacked| :: outcome.updated[i] == (repackable[i].ptr, repacked[i].ptr))
      && outcome.returned == Returned(repacked, repackable, returnIs, |repacked|)
  {
    var queue := repackable;
    ok, outcome := true, Outcome([], None);
    for i := 0 to |repacked|
      invariant i <= |repackable| && queue == repackable[i..]
      invariant forall x | 0 <= x < i :: repackable[x].tag == repacked[x].tag
      invariant (forall x | 0 <= x < i :: IsPointer(repacked[x].tag)) ==>
        && |outcome.updated| == i
        && (forall x | 0 <= x < i :: outcome.updated[x] == (repackable[x].ptr, repacked[x].ptr))
        && outcome.returned == Returned(repacked, repackable, returnIs, i)
    {
      if |queue| == 0 {
        ok := false;
        return;
      }
      var original := queue[0];
      queue := queue[1..];
      if original.tag != repacked[i].tag {
        ok := false;
        return;
      }
      if IsPointer(original.tag) {
        outcome := outcome.(updated := outcome.updated + [(original.ptr, repacked[i].ptr)]);
        if original.tag != SIZEDBUF && returnIs == i {
          outcome := outcome.(returned := Some(original.ptr));
        }
      }
    }
  }

  /** A text that came back in memory of its own is copied over the caller's, one byte
      more than the shorter of the two has characters. The caller then holds the text
      that came back if and only if it is not longer; a longer one leaves him without
      a terminator. */
  method OverwriteText(original: array<Bytes.Byte>, returned: seq<Bytes.Byte>)
    requires Wire.CString(original[..]).Some? && Wire.CString(returned).Some?
    modifies original
    ensures var o, r := Wire.CString(old(original[..])).value, Wire.CString(returned).value;
      var n := (if |o| > |r| then |r| else |o|) + 1;
      && n <= original.Length && n <= |returned|
      && original[..] == returned[..n] + old(original[..])[n..]
      && Wire.CString(original[..|o| + 1]) == if |r| <= |o| then Some(r) else None
  {
    hide Wire.CString;
    ghost var before := original[..];
    var o, r := Wire.CString(original[..]).value, Wire.CString(returned).value;
    var length := (if |o| > |r| then |r| else |o|) + 1;
    for i := 0 to length
      invariant forall k | 0 <= k < original.Length :: original[k] == if k < i then returned[k] else before[k]
    {
      original[i] := returned[i];
    }
    assert original[..] == returned[..length] + before[length..];
    Wire.TextFirst(returned);
    if |r| <= |o| {
      CopiedWhole(before, returned, r, |o| + 1);
    } else {
      CopiedPart(before, returned, r, |o| + 1);
    }
  }

  lemma {:induction false} NoText(b: seq<Bytes.Byte>)
    requires Wire.NoNul(b)
    ensures Wire.CString(b).None?
  {
    if |b| > 0 {
      NoText(b[1..]);
    }
  }

  lemma CopiedWhole(original: seq<Bytes.Byte>, returned: seq<Bytes.Byte>, r: Wire.Chars, n: nat)
    requires Wire.NoNul(r) && |r| < n <= |original|
    requires |r| < |returned| && returned[..|r| + 1] == r + [Bytes.NUL]
    ensures Wire.CString((returned[..|r| + 1] + original[|r| + 1..])[..n]) == Some(r)
  {
    hide Wire.CString;
    var tail := original[|r| + 1..n];
    assert (returned[..|r| + 1] + original[|r| + 1..])[..n] == r + [Bytes.NUL] + tail;
    Wire.CStringRoundTrip(r, tail);
  }

  lemma CopiedPart(original: seq<Bytes.Byte>, returned: seq<Bytes.Byte>, r: Wire.Chars, n: nat)
    requires Wire.NoNul(r) && n <= |original| && n <= |r| <= |returned| && returned[..|r|] == r
    ensures Wire.CString((returned[..n] + original[n..])[..n]) == None
  {
    hide Wire.CString;
    assert (returned[..n] + original[n..])[..n] == r[..n];
    NoText(r[..n]);
  }
}
