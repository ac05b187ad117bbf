/** A call from end to end: drpc_server_call_fn between the two halves of
    drpc_client_call_internal. */
module MarshalCall {
  import opened Wrappers
  import opened Marshal
  import opened MarshalServer
  import opened MarshalClient

  // ---------- the server ----------

  /** The outcome of drpc_server_call_fn; Crashed is a failed assertion. The vector
      is the one that the function was called with. */
  datatype CallReply = BadArguments | Crashed | Replied(vector: seq<Slot>, repacked: seq<Update>, returnIs: int)

  /** struct drpc_function. Types is set when the call interface is prepared. */
  class Function {
    const Prototype: array<Tag>
    const ReturnType: Tag
    var types: Option<seq<FfiType>>

    ghost predicate Valid()
      reads this, Prototype
    {
      types.Some? ==> types.value == FfiTypes(Prototype[..])
    }

    constructor Register(prototype: array<Tag>, returnType: Tag)
      ensures Valid() && fresh(Prototype) && Prototype[..] == prototype[..] && ReturnType == returnType && types.None?
    {
      Prototype := new Tag[prototype.Length](i requires 0 <= i < prototype.Length reads prototype => prototype[i]);
      ReturnType, types := returnType, None;
    }

    /** Prepares the call interface; tags out of range become void in place. */
    method Prepare()
      requires Valid()
      modifies this, Prototype
      ensures Valid() && types.Some? && types.value == FfiTypes(old(Prototype[..]))
      ensures Prototype[..] == if old(types).None? then Clamp(old(Prototype[..])) else old(Prototype[..])
    {
      if types.None? {
        ClampKeepsTypes(Prototype[..]);
        var ffi := ProtoToFfi(Prototype);
        types := Some(ffi[..]);
      }
    }

    /** The function that is called may return anything; it is given the vector,
        and the types that were prepared agree with it slot by slot. A call without
        an array of arguments is never answered. */
    method CallFn(arguments: Option<seq<Argument>>, env: Tag -> nat, result: nat) returns (reply: CallReply)
      requires Valid()
      modifies this, Prototype
      ensures Valid()
      ensures var p, args := old(Prototype[..]), OrEmpty(arguments);
        && (reply.BadArguments? <==> arguments.Some? && TagsOf(args) != Strip(p))
        && (reply.Crashed? <==>
              (arguments.None?
                || (TagsOf(args) == Strip(p)
                     && (VOID in Strip(p) || !RightlyTyped(Repacks(p, args), result, ReturnType)))))
        && (reply.Replied? ==>
              && reply.vector == FilledSlots(Slots(p, args), env)
              && types.Some? && types.value == SlotTypes(reply.vector)
              && reply.repacked == Repacks(p, args)
              && reply.returnIs == ToInt8(LastIndex(reply.repacked, result)))
      ensures var p, args := old(Prototype[..]), OrEmpty(arguments);
        Prototype[..] ==
          if arguments.None? || old(types).Some? || TagsOf(args) != Strip(p) || VOID in Strip(p) then p else Clamp(p)
    {
      hide Strip, Slots, Fills, Repacks, FfiTypes, Blanks;
      ghost var p := Prototype[..];
      var extracted := ExtractPrototype(arguments);
      var ok, length := ArrayLength(arguments);
      if !ok {
        return Crashed;
      }
      assert length == |OrEmpty(extracted)|;
      var different := IsArgumentsEqualPrototype(Some(Prototype[..]), extracted);
      if different {
        return BadArguments;
      }
      var args := arguments.value;
      var slots, toFill, toRepack;
      ok, slots, toFill, toRepack := FfiFromDrpc(args, Prototype);
      if !ok {
        return Crashed;
      }
      Prepare();
      FillsAreTheBlanks(p, args);
      SlotsMatchTypes(p, args);
      FillIn(slots, toFill, env);
      FillingKeepsTypes(Slots(p, args), env);
      var vector := slots[..];
      var right, repacked, returnIs := Repack(toRepack, result, ReturnType);
      if !right {
        return Crashed;
      }
      reply := Replied(vector, repacked, returnIs);
    }
  }

  /** The types of the arguments; none when there is no array. */
  method ExtractPrototype(arguments: Option<seq<Argument>>) returns (extracted: Option<seq<Tag>>)
    ensures extracted == if arguments.Some? then Some(TagsOf(arguments.value)) else None
  {
    if arguments.None? {
      return None;
    }
    var args := arguments.value;
    var tags := new Tag[|args|];
    for i := 0 to |args|
      invariant tags[..i] == TagsOf(args)[..i]
    {
      tags[i] := args[i].tag;
    }
    assert tags[..] == TagsOf(args);
    extracted := Some(tags[..]);
  }

  /** d_array_len, which asserts that there is an array. */
  method ArrayLength(arguments: Option<seq<Argument>>) returns (ok: bool, length: nat)
    ensures ok <==> arguments.Some?
    ensures ok ==> length == |arguments.value|
  {
    if arguments.None? {
      return false, 0;
    }
    return true, |arguments.value|;
  }

  /** A function without parameters, called without arguments: the comparison would
      accept the call, but the call fails before it. */
  method CallWithoutArguments(returnType: Tag, env: Tag -> nat, result: nat) returns (reply: CallReply)
    ensures reply.Crashed? && Accepts(Some([]), None)
  {
    var none := new Tag[0];
    var fn := new Function.Register(none, returnType);
    assert fn.Prototype[..] == [];
    reply := fn.CallFn(None, env, result);
  }

  lemma FillingKeepsTypes(slots: seq<Slot>, env: Tag -> nat)
    ensures SlotTypes(FilledSlots(slots, env)) == SlotTypes(slots)
  {
  }

  // ---------- client and server together ----------

  /** Arguments of the same tags have their pointers at the same places. */
  lemma {:induction false} PointersAlign(a: seq<Argument>, b: seq<Argument>)
    requires TagsOf(a) == TagsOf(b)
    ensures |Pointers(a)| == |Pointers(b)|
    ensures forall i | 0 <= i < |Pointers(a)| :: Pointers(a)[i].tag == Pointers(b)[i].tag
  {
    if |a| > 0 {
      var n := |a| - 1;
      assert TagsOf(a)[..n] == TagsOf(a[..n]) && TagsOf(b)[..n] == TagsOf(b[..n]);
      assert TagsOf(a)[n] == a[n].tag && TagsOf(b)[n] == b[n].tag;
      PointersAlign(a[..n], b[..n]);
    }
  }

  lemma {:induction false} PointersArePointers(args: seq<Argument>)
    ensures forall i | 0 <= i < |Pointers(args)| :: IsPointer(Pointers(args)[i].tag)
  {
    if |args| > 0 {
      PointersArePointers(args[..|args| - 1]);
    }
  }

  /** If the server accepts a call, the arguments it sends back are the pointers of
      the client's prototype, so none of the client's assertions can fail. sent are
      the arguments on the client's side, received the same on the server's. */
  lemma RepackedIsExpected(p: seq<Tag>, sent: seq<Argument>, received: seq<Argument>)
    requires TagsOf(sent) == TagsOf(received) == Strip(p)
    ensures var repacked, expected := Repacks(p, received), ExpectedAll(Pointers(sent));
      && |repacked| == |expected|
      && forall i | 0 <= i < |repacked| :: expected[i].tag == repacked[i].tag && IsPointer(repacked[i].tag)
  {
    hide Strip, Repacks, Pointers;
    RepacksAreThePointers(p, received);
    assert received[..|Strip(p)|] == received;
    PointersAlign(sent, received);
    PointersArePointers(received);
  }

  /** An integer that its C type can hold. */
  predicate FitsType(a: Argument) {
    && (a.tag == 1 || a.tag == 2 ==> a.value < 0x100)
    && (a.tag == 3 || a.tag == 4 ==> a.value < 0x1_0000)
    && (a.tag == 5 || a.tag == 6 ==> a.value < 0x1_0000_0000)
    && (a.tag == 7 || a.tag == 8 ==> a.value < 0x1_0000_0000_0000_0000)
  }

  lemma IntegersArrive(passed: seq<Argument>, cast: (Tag, nat) -> nat, received: seq<Argument>, arrival: Arrival)
    requires |received| <= |passed| && forall i: nat | i < |passed| && Sendable(passed[i].tag) :: i in arrival.elements
    requires forall i | 0 <= i < |received| && Sendable(passed[i].tag) ::
      SameValue(received[i], passed[i], cast, arrival.elements[i], arrival.content)
    ensures forall i | 0 <= i < |received| && 1 <= passed[i].tag <= 8 && FitsType(passed[i]) ::
      received[i].value == passed[i].value
  {
    hide Kept;
    forall i | 0 <= i < |received| && 1 <= passed[i].tag <= 8 && FitsType(passed[i])
      ensures received[i].value == passed[i].value
    {
      KeptExactly(passed[i], cast);
      assert SameValue(received[i], passed[i], cast, arrival.elements[i], arrival.content);
    }
  }

  /** One whole call with the function's result given. The client fails an assertion
      if and only if a pointer among the arguments is null; then nothing is sent.
      received are the arguments that the server has: they have the types and the
      values that came over the transport, and fill the slots of the call. Types that
      the client does not pass on are refused or fail unless they come last. If the
      call is answered, every object that the client passed gets the one at its place,
      and the client returns its own object for the argument that the function
      returned. */
  method WholeCall(fn: Function, prototype: seq<Tag>, varargs: seq<Slot>, cast: (Tag, nat) -> nat,
                   ghost passed: seq<Argument>, received: seq<Argument>, ghost arrival: Arrival,
                   env: Tag -> nat, result: nat)
    returns (ok: bool, reply: Option<CallReply>, outcome: Outcome)
    requires fn.Valid() && Sized(passed) && TagsOf(passed) == prototype && varargs == Flat(Sent(passed))
    requires NoNull(passed) ==> Arrived(passed, cast, received, arrival)
    modifies fn, fn.Prototype
    ensures fn.Valid()
    ensures ok <==> NoNull(passed)
    ensures ok <==> forall i | 0 <= i < |passed| :: 11 <= passed[i].tag <= 15 ==> passed[i].value != 0
    ensures reply.Some? <==> ok
    ensures !ok ==> fn.Prototype[..] == old(fn.Prototype[..])
    ensures ok ==>
      && TagsOf(received) == TypesRead(passed)
      && forall i | 0 <= i < |received| && Sendable(passed[i].tag) ::
           SameValue(received[i], passed[i], cast, arrival.elements[i], arrival.content)
    ensures ok ==>
      forall i | 0 <= i < |received| && 1 <= passed[i].tag <= 8 && FitsType(passed[i]) ::
        received[i].value == passed[i].value
    ensures ok ==> (reply.value.BadArguments? <==> TypesRead(passed) != Strip(old(fn.Prototype[..])))
    ensures ok ==> (reply.value.Crashed? <==>
      (TypesRead(passed) == Strip(old(fn.Prototype[..]))
        && (VOID in TypesRead(passed)
             || !RightlyTyped(Repacks(old(fn.Prototype[..]), received), result, fn.ReturnType))))
    ensures ok && reply.value.Replied? ==>
      var mine, theirs := Pointers(passed), Pointers(received);
      var repacked := reply.value.repacked;
      var i, r := LastIndex(repacked, result), ToInt8(LastIndex(repacked, result));
      && reply.value.vector == FilledSlots(Slots(old(fn.Prototype[..]), received), env)
      && Sent(passed) == passed[..|received|]
      && |outcome.updated| == |mine| == |theirs| == |repacked|
      && (forall x | 0 <= x < |mine| :: outcome.updated[x] == (mine[x].value, theirs[x].value))
      && outcome.returned == (if 0 <= r < |mine| && mine[r].tag != SIZEDBUF then Some(mine[r].value) else None)
      && (i <= 127 ==> outcome.returned == if i >= 0 && mine[i].tag != SIZEDBUF then Some(mine[i].value) else None)
  {
    hide Strip, Repacks, Pointers, Slots, Flat, LastIndex, Arrived, Sent, TypesRead, SameValue, Places;
    ghost var p := fn.Prototype[..];
    var arguments, repackable;
    ok, arguments, repackable := ReadArguments(prototype, varargs, cast, passed);
    reply, outcome := None, Outcome([], None);
    if !ok {
      return;
    }
    ArgumentsArrive(passed, cast, received, arrival);
    IntegersArrive(passed, cast, received, arrival);
    var answer := fn.CallFn(Some(received), env, result);
    reply := Some(answer);
    if answer.Replied? {
      SentComeFirst(passed);
      RepackedIsExpected(p, Sent(passed), received);
      RepacksAreThePointers(p, received);
      assert received[..|Strip(p)|] == received;
      ok, outcome := TakeBack(answer.repacked, repackable, answer.returnIs);
    }
  }

  /** The index goes through an int8_t unharmed if and only if it is at most 127. */
  lemma ReturnIsExact(i: int)
    requires i >= -1
    ensures ToInt8(i) == i <==> i <= 127
  {
  }
}
