/** Call marshalling: the passes over a prototype that the client, the server and
    the proxy make one after another, and what they must agree on. */
module Marshal {
  import Wire

  // ---------- enum drpc_types ----------

  type Tag = nat

  const VOID: Tag := Wire.VOID as nat
  const UINT8: Tag := 2
  const UINT16: Tag := 4
  const UINT32: Tag := 6
  const FLOAT: Tag := 9
  const DOUBLE: Tag := 10
  const STR: Tag := Wire.STR as nat
  const SIZEDBUF: Tag := Wire.SIZEDBUF as nat
  const QUEUE: Tag := Wire.QUEUE as nat
  const FNSTORAGE: Tag := 16
  const CLIENTINFO: Tag := 17
  const INTERFUNC: Tag := 18
  const FNINFO: Tag := 19
  const RETURN_IS: Tag := 20

  predicate ServerOnly(t: Tag) {
    t == INTERFUNC || t == FNSTORAGE || t == CLIENTINFO || t == FNINFO
  }

  /** d_str, d_sizedbuf, d_array, d_struct and d_queue. */
  predicate IsPointer(t: Tag) {
    STR <= t <= QUEUE
  }

  /** An element of the array of arguments, with the length of a sized buffer. */
  datatype Argument = Argument(tag: Tag, value: nat, len: nat)

  function TagsOf(args: seq<Argument>): (tags: seq<Tag>)
    ensures |tags| == |args|
  {
    seq(|args|, i requires 0 <= i < |args| => args[i].tag)
  }

  // ---------- what each pass computes ----------

  /** The prototype without the parameters that the server fills in itself. */
  function Strip(p: seq<Tag>): seq<Tag> {
    if |p| == 0 then []
    else Strip(p[..|p| - 1]) + if ServerOnly(p[|p| - 1]) then [] else [p[|p| - 1]]
  }

  datatype FfiType = FfiScalar(tag: Tag) | FfiPointer | FfiUlong

  /** The conversion table; a tag out of its range is first made void. */
  function FfiOf(t: Tag): FfiType {
    if t >= RETURN_IS then FfiScalar(VOID) else if t >= STR then FfiPointer else FfiScalar(t)
  }

  function FfiTypes(p: seq<Tag>): seq<FfiType> {
    if |p| == 0 then []
    else
      var t := p[|p| - 1];
      FfiTypes(p[..|p| - 1]) + if t == SIZEDBUF then [FfiPointer, FfiUlong] else [FfiOf(t)]
  }

  /** A slot of the call: a server-only one still to be filled, a filled one, or
      one made of an argument. */
  datatype Slot =
    | Blank(tag: Tag)
    | Given(value: nat)
    | Pointer(value: nat)
    | Size(len: nat)
    | Scalar(tag: Tag, value: nat)

  function SlotsOfArgument(a: Argument): seq<Slot> {
    if a.tag == SIZEDBUF then [Pointer(a.value), Size(a.len)]
    else if IsPointer(a.tag) then [Pointer(a.value)]
    else [Scalar(a.tag, a.value)]
  }

  function Slots(p: seq<Tag>, args: seq<Argument>): seq<Slot>
    requires |Strip(p)| <= |args|
  {
    if |p| == 0 then []
    else
      var head, t := p[..|p| - 1], p[|p| - 1];
      Slots(head, args) + if ServerOnly(t) then [Blank(t)] else SlotsOfArgument(args[|Strip(head)|])
  }

  /** struct drpc_type_update, as the queue of slots to fill and the queue of
      arguments to send back hold it. */
  datatype Update = Update(tag: Tag, ptr: nat, len: nat, index: nat)

  function Fills(p: seq<Tag>, args: seq<Argument>): seq<Update>
    requires |Strip(p)| <= |args|
  {
    if |p| == 0 then []
    else
      var head, t := p[..|p| - 1], p[|p| - 1];
      Fills(head, args) + if ServerOnly(t) then [Update(t, 0, 0, |Slots(head, args)|)] else []
  }

  function Repacks(p: seq<Tag>, args: seq<Argument>): seq<Update>
    requires |Strip(p)| <= |args|
  {
    if |p| == 0 then []
    else
      var head, t := p[..|p| - 1], p[|p| - 1];
      Repacks(head, args) +
      if ServerOnly(t) || !IsPointer(args[|Strip(head)|].tag) then []
      else
        var a := args[|Strip(head)|];
        [Update(a.tag, a.value, if a.tag == SIZEDBUF then a.len else 0, |Slots(head, args)|)]
  }

  /** One more parameter, in each of the passes. */
  lemma OneMore(head: seq<Tag>, t: Tag, args: seq<Argument>)
    requires |Strip(head + [t])| <= |args|
    ensures var p, j := head + [t], |Strip(head)|;
      && p[..|p| - 1] == head
      && Strip(p) == (if ServerOnly(t) then Strip(head) else Strip(head) + [t])
      && Slots(p, args) == Slots(head, args) + (if ServerOnly(t) then [Blank(t)] else SlotsOfArgument(args[j]))
      && Repacks(p, args) == (if ServerOnly(t) || !IsPointer(args[j].tag) then Repacks(head, args)
                              else Repacks(head, args) + [Update(args[j].tag, args[j].value,
                                if args[j].tag == SIZEDBUF then args[j].len else 0, |Slots(head, args)|)])
  {
    hide SlotsOfArgument;
    assert (head + [t])[..|head|] == head;
  }

  lemma Nothing(args: seq<Argument>)
    ensures Strip([]) == [] && Slots([], args) == [] && Repacks([], args) == []
    ensures args[..0] == [] && Flat([]) == [] && Pointers([]) == [] && FromArguments([]) == []
  {
  }

  // ---------- the passes agree ----------

  function SlotType(s: Slot): FfiType {
    match s
    case Blank(_) => FfiPointer
    case Given(_) => FfiPointer
    case Pointer(_) => FfiPointer
    case Size(_) => FfiUlong
    case Scalar(tag, _) => FfiOf(tag)
  }

  function SlotTypes(slots: seq<Slot>): seq<FfiType> {
    seq(|slots|, i requires 0 <= i < |slots| => SlotType(slots[i]))
  }

  lemma StripPrefix(p: seq<Tag>, tags: seq<Tag>)
    requires |p| > 0 && Strip(p) == tags
    ensures var head := p[..|p| - 1];
      && |Strip(head)| <= |tags| && Strip(head) == tags[..|Strip(head)|]
      && (!ServerOnly(p[|p| - 1]) ==> |Strip(head)| < |tags| && tags[|Strip(head)|] == p[|p| - 1])
  {
  }

  /** The types that libffi is told and the arguments that it is given agree slot
      by slot. */
  lemma {:induction false} SlotsMatchTypes(p: seq<Tag>, args: seq<Argument>)
    requires |Strip(p)| <= |args| && Strip(p) == TagsOf(args)[..|Strip(p)|]
    ensures SlotTypes(Slots(p, args)) == FfiTypes(p)
  {
    if |p| > 0 {
      var head, t := p[..|p| - 1], p[|p| - 1];
      assert p == head + [t];
      OneMore(head, t, args);
      StripPrefix(p, Strip(p));
      SlotsMatchTypes(head, args);
    }
  }

  function AdjustedLength(p: seq<Tag>): (n: nat)
    ensures |p| <= n <= 2 * |p|
  {
    if |p| == 0 then 0
    else AdjustedLength(p[..|p| - 1]) + if p[|p| - 1] == SIZEDBUF then 2 else 1
  }

  lemma {:induction false} FfiTypesLength(p: seq<Tag>)
    ensures |FfiTypes(p)| == AdjustedLength(p)
  {
    if |p| > 0 {
      FfiTypesLength(p[..|p| - 1]);
    }
  }

  /** The slots that were made of arguments. */
  function FromArguments(slots: seq<Slot>): seq<Slot> {
    if |slots| == 0 then []
    else FromArguments(slots[..|slots| - 1]) + if slots[|slots| - 1].Blank? then [] else [slots[|slots| - 1]]
  }

  function Flat(args: seq<Argument>): seq<Slot> {
    if |args| == 0 then [] else Flat(args[..|args| - 1]) + SlotsOfArgument(args[|args| - 1])
  }

  lemma FlatLast(args: seq<Argument>, a: Argument)
    ensures Flat(args + [a]) == Flat(args) + SlotsOfArgument(a)
  {
    hide SlotsOfArgument;
    assert (args + [a])[..|args|] == args;
  }

  lemma FromArgumentsBlank(slots: seq<Slot>, t: Tag)
    ensures FromArguments(slots + [Blank(t)]) == FromArguments(slots)
  {
    assert (slots + [Blank(t)])[..|slots|] == slots;
  }

  lemma FromArgumentsAppend(slots: seq<Slot>, a: Argument)
    ensures FromArguments(slots + SlotsOfArgument(a)) == FromArguments(slots) + SlotsOfArgument(a)
  {
    assert forall s: Slot :: (slots + [s])[..|slots|] == slots;
    if a.tag == SIZEDBUF {
      assert slots + SlotsOfArgument(a) == (slots + [Pointer(a.value)]) + [Size(a.len)];
      var first := slots + [Pointer(a.value)];
      assert (first + [Size(a.len)])[..|first|] == first;
    }
  }

  /** Each client argument goes to one slot, a sized buffer to two, in order. */
  lemma {:induction false} ArgumentsInOrder(p: seq<Tag>, args: seq<Argument>)
    requires |Strip(p)| <= |args|
    ensures FromArguments(Slots(p, args)) == Flat(args[..|Strip(p)|])
  {
    hide Strip, Slots, Flat, SlotsOfArgument, Repacks, FromArguments;
    if |p| == 0 {
      Nothing(args);
    } else {
      var head, t := p[..|p| - 1], p[|p| - 1];
      var j := |Strip(head)|;
      assert p == head + [t];
      OneMore(head, t, args);
      ArgumentsInOrder(head, args);
      if ServerOnly(t) {
        FromArgumentsBlank(Slots(head, args), t);
      } else {
        FromArgumentsAppend(Slots(head, args), args[j]);
        assert args[..j + 1] == args[..j] + [args[j]];
        FlatLast(args[..j], args[j]);
      }
    }
  }

  /** The blanks among the slots and where they are. */
  function Blanks(slots: seq<Slot>): seq<Update> {
    if |slots| == 0 then []
    else
      var n := |slots| - 1;
      Blanks(slots[..n]) + if slots[n].Blank? then [Update(slots[n].tag, 0, 0, n)] else []
  }

  lemma BlanksAppend(slots: seq<Slot>, a: Argument)
    ensures Blanks(slots + SlotsOfArgument(a)) == Blanks(slots)
  {
    if a.tag == SIZEDBUF {
      var first := slots + [Pointer(a.value)];
      assert slots + SlotsOfArgument(a) == first + [Size(a.len)];
      assert (first + [Size(a.len)])[..|first|] == first && first[..|slots|] == slots;
    } else {
      assert (slots + SlotsOfArgument(a))[..|slots|] == slots;
    }
  }

  /** Every server-only slot has its own entry in the queue of slots to fill. */
  lemma {:induction false} FillsAreTheBlanks(p: seq<Tag>, args: seq<Argument>)
    requires |Strip(p)| <= |args|
    ensures Fills(p, args) == Blanks(Slots(p, args))
  {
    if |p| > 0 {
      var head, t := p[..|p| - 1], p[|p| - 1];
      FillsAreTheBlanks(head, args);
      if ServerOnly(t) {
        assert Slots(p, args)[..|Slots(head, args)|] == Slots(head, args);
      } else {
        BlanksAppend(Slots(head, args), args[|Strip(head)|]);
      }
    }
  }

  /** The pointer-typed arguments of a client, in order. */
  function Pointers(args: seq<Argument>): seq<Argument> {
    if |args| == 0 then []
    else
      var a := args[|args| - 1];
      Pointers(args[..|args| - 1]) + if IsPointer(a.tag) then [a] else []
  }

  lemma PointersLast(args: seq<Argument>, a: Argument)
    ensures Pointers(args + [a]) == if IsPointer(a.tag) then Pointers(args) + [a] else Pointers(args)
  {
    assert (args + [a])[..|args|] == args;
  }

  predicate SameArgument(u: Update, a: Argument) {
    u.tag == a.tag && u.ptr == a.value && (a.tag == SIZEDBUF ==> u.len == a.len)
  }

  /** What the server sends back are the client's pointer arguments, in order. */
  lemma {:induction false} RepacksAreThePointers(p: seq<Tag>, args: seq<Argument>)
    requires |Strip(p)| <= |args|
    ensures var r, c := Repacks(p, args), Pointers(args[..|Strip(p)|]);
      |r| == |c| && forall i | 0 <= i < |r| :: SameArgument(r[i], c[i])
  {
    hide Strip, Slots, Repacks, SlotsOfArgument, Pointers;
    if |p| == 0 {
      Nothing(args);
    } else {
      var head, t := p[..|p| - 1], p[|p| - 1];
      var j := |Strip(head)|;
      assert p == head + [t];
      OneMore(head, t, args);
      RepacksAreThePointers(head, args);
      if !ServerOnly(t) {
        assert args[..j + 1] == args[..j] + [args[j]];
        PointersLast(args[..j], args[j]);
      }
    }
  }
}
