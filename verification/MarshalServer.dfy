/** The loops of drpc_server.c that check a call, build its argument vector, fill
    in what the server adds and collect what goes back. */
module MarshalServer {
  import opened Wrappers
  import opened Marshal

  method LengthAdjust(prototype: array<Tag>) returns (adjusted: nat)
    ensures adjusted == AdjustedLength(prototype[..]) == |FfiTypes(prototype[..])|
  {
    adjusted := prototype.Length;
    assert prototype[..0] == [];
    for i := 0 to prototype.Length
      invariant adjusted == AdjustedLength(prototype[..i]) + (prototype.Length - i)
    {
      assert prototype[..i + 1][..i] == prototype[..i];
      if prototype[i] == SIZEDBUF {
        adjusted := adjusted + 1;
      }
    }
    assert prototype[..prototype.Length] == prototype[..];
    FfiTypesLength(prototype[..]);
  }

  /** A tag that the conversion table does not reach becomes void. */
  function Clamp(p: seq<Tag>): (r: seq<Tag>)
    ensures |r| == |p|
  {
    seq(|p|, i requires 0 <= i < |p| => if p[i] >= RETURN_IS then VOID else p[i])
  }

  lemma {:induction false} ClampKeepsTypes(p: seq<Tag>)
    ensures FfiTypes(Clamp(p)) == FfiTypes(p)
  {
    if |p| > 0 {
      ClampKeepsTypes(p[..|p| - 1]);
      assert Clamp(p)[..|p| - 1] == Clamp(p[..|p| - 1]);
    }
  }

  predicate InRange(p: seq<Tag>) {
    forall i | 0 <= i < |p| :: p[i] < RETURN_IS
  }

  lemma SameAppended<T>(a: seq<T>, b: seq<T>, x: T, y: T)
    requires |a| == |b|
    ensures a + [x] == b + [y] <==> a == b && x == y
  {
    assert (a + [x])[..|a|] == a && (b + [y])[..|b|] == b;
    assert (a + [x])[|a|] == x && (b + [y])[|b|] == y;
  }

  /** Clamping keeps the arguments that a prototype accepts exactly when no tag
      is out of range. */
  lemma {:induction false} ClampKeepsStrip(p: seq<Tag>)
    ensures |Strip(Clamp(p))| == |Strip(p)|
    ensures Strip(Clamp(p)) == Strip(p) <==> InRange(p)
  {
    if |p| > 0 {
      var head, t := p[..|p| - 1], p[|p| - 1];
      ClampKeepsStrip(head);
      assert Clamp(p)[..|p| - 1] == Clamp(head);
      assert p == head + [t];
      if ServerOnly(t) {
        assert Strip(p) == Strip(head) && Strip(Clamp(p)) == Strip(Clamp(head));
      } else {
        SameAppended(Strip(head), Strip(Clamp(head)), t, if t >= RETURN_IS then VOID else t);
      }
    }
  }

  /** drpc_proto_to_ffi: the second index runs ahead by one at each sized buffer. */
  method ProtoToFfi(prototype: array<Tag>) returns (ffi: array<FfiType>)
    modifies prototype
    ensures fresh(ffi) && ffi[..] == FfiTypes(old(prototype[..]))
    ensures prototype[..] == Clamp(old(prototype[..]))
  {
    hide FfiTypes, AdjustedLength;
    ghost var p := prototype[..];
    var adjusted := LengthAdjust(prototype);
    ffi := new FfiType[adjusted](_ => FfiPointer);
    var j: nat := 0;
    NoTypes(p);
    for i := 0 to prototype.Length
      invariant forall k | 0 <= k < prototype.Length ::
        prototype[k] == if k < i && p[k] >= RETURN_IS then VOID else p[k]
      invariant j == |FfiTypes(p[..i])| <= ffi.Length && ffi[..j] == FfiTypes(p[..i])
    {
      OneMoreType(p, i);
      if prototype[i] >= RETURN_IS {
        prototype[i] := VOID;
      }
      j := PutType(ffi, j, prototype[i]);
    }
    assert p[..|p|] == p;
    assert ffi[..j] == ffi[..];
  }

  method PutType(ffi: array<FfiType>, j: nat, t: Tag) returns (next: nat)
    requires t < RETURN_IS && j + (if t == SIZEDBUF then 2 else 1) <= ffi.Length
    modifies ffi
    ensures next <= ffi.Length
    ensures ffi[..next] == old(ffi[..j]) + if t == SIZEDBUF then [FfiPointer, FfiUlong] else [FfiOf(t)]
  {
    ghost var done := ffi[..j];
    next := j;
    ffi[next] := FfiOf(t);
    if t == SIZEDBUF {
      next := next + 1;
      ffi[next] := FfiUlong;
    }
    next := next + 1;
    assert ffi[..next] == done + if t == SIZEDBUF then [FfiPointer, FfiUlong] else [FfiOf(t)];
  }

  lemma NoTypes(p: seq<Tag>)
    ensures FfiTypes(p[..0]) == []
  {
  }

  lemma OneMoreType(p: seq<Tag>, i: nat)
    requires i < |p|
    ensures FfiTypes(p[..i + 1])
         == FfiTypes(p[..i]) + if p[i] == SIZEDBUF then [FfiPointer, FfiUlong] else [FfiOf(p[i])]
    ensures |FfiTypes(p[..i + 1])| <= |FfiTypes(p)|
  {
    assert p[..i + 1][..i] == p[..i];
    PrefixLength(p, i + 1);
    FfiTypesLength(p);
    FfiTypesLength(p[..i + 1]);
  }

  lemma {:induction false} PrefixLength(p: seq<Tag>, i: nat)
    requires i <= |p|
    ensures AdjustedLength(p[..i]) <= AdjustedLength(p)
    decreases |p|
  {
    if i < |p| {
      PrefixLength(p[..|p| - 1], i);
      assert p[..|p| - 1][..i] == p[..i];
    } else {
      assert p[..i] == p;
    }
  }

  // ---------- acceptance ----------

  function OrEmpty<T>(s: Option<seq<T>>): seq<T> {
    match s
    case None => []
    case Some(x) => x
  }

  /** The client sends exactly the parameters that are not the server's own. */
  predicate Accepts(serv: Option<seq<Tag>>, client: Option<seq<Tag>>) {
    OrEmpty(client) == Strip(OrEmpty(serv))
  }

  /** drpc_create_client_prototype; a null prototype is None. */
  method CreateClientPrototype(serv: Option<seq<Tag>>) returns (client: Option<seq<Tag>>, length: nat)
    ensures client.Some? <==> serv.Some?
    ensures OrEmpty(client) == Strip(OrEmpty(serv)) && length == |OrEmpty(client)|
  {
    length := 0;
    if serv.None? {
      return None, length;
    }
    var parts: seq<Tag> := [];
    for i := 0 to |serv.value|
      invariant parts == Strip(serv.value[..i]) && length == |parts|
    {
      assert serv.value[..i + 1][..i] == serv.value[..i];
      var t := serv.value[i];
      if t != INTERFUNC && t != FNSTORAGE && t != CLIENTINFO && t != FNINFO {
        parts := parts + [t];
        length := length + 1;
      }
    }
    assert serv.value[..|serv.value|] == serv.value;
    var prototype := new Tag[length];
    ghost var all := parts;
    for i := 0 to length
      invariant parts == all[i..] && prototype[..i] == all[..i]
    {
      prototype[i] := parts[0];
      parts := parts[1..];
    }
    assert prototype[..] == all;
    client := Some(prototype[..]);
  }

  /** is_arguments_equal_prototype: zero when they agree. */
  method IsArgumentsEqualPrototype(serv: Option<seq<Tag>>, client: Option<seq<Tag>>) returns (different: bool)
    ensures different <==> !Accepts(serv, client)
    ensures serv.Some? && client.Some? ==> (different <==> client.value != Strip(serv.value))
    ensures serv.None? ==> (different <==> client.Some? && client.value != [])
    ensures serv.Some? && client.None? ==> (different <==> Strip(serv.value) != [])
  {
    if serv.None? && client.None? {
      return false;
    }
    var newServ, newServLength := CreateClientPrototype(serv);
    var clientLength := |OrEmpty(client)|;
    if serv.None? || client.None? {
      return !(clientLength == 0 && newServLength == 0);
    }
    if newServLength != clientLength {
      return true;
    }
    for i := 0 to clientLength
      invariant newServ.value[..i] == client.value[..i]
    {
      if newServ.value[i] != client.value[i] {
        assert newServ.value != client.value;
        return true;
      }
    }
    assert newServ.value[..clientLength] == client.value[..clientLength];
    return false;
  }

  // ---------- the argument vector ----------

  /** The prefix of the prototype is stripped to a prefix. */
  lemma {:induction false} StripPrefixes(p: seq<Tag>, i: nat)
    requires i <= |p|
    ensures |Strip(p[..i])| <= |Strip(p)| && Strip(p[..i]) == Strip(p)[..|Strip(p[..i])|]
    ensures i < |p| && !ServerOnly(p[i]) ==> |Strip(p[..i])| < |Strip(p)| && Strip(p)[|Strip(p[..i])|] == p[i]
    decreases |p|
  {
    if i == |p| {
      assert p[..i] == p;
    } else if i + 1 == |p| {
      assert p[..i] == p[..|p| - 1];
    } else {
      StripPrefixes(p[..|p| - 1], i);
      assert p[..|p| - 1][..i] == p[..i];
    }
  }

  /** The vector, the queues and the indices after i parameters. */
  ghost predicate Built(p: seq<Tag>, args: seq<Argument>, i: nat, j: nat, slots: array<Slot>, k: nat,
                        fillLater: seq<Update>, repack: seq<Update>)
    reads slots
  {
    && i <= |p| && j == |Strip(p[..i])| <= |args|
    && k <= slots.Length && slots[..k] == Slots(p[..i], args)
    && fillLater == Fills(p[..i], args) && repack == Repacks(p[..i], args)
  }

  /** There is room for the slots of one more parameter. */
  lemma Room(p: seq<Tag>, args: seq<Argument>, i: nat)
    requires i < |p| && TagsOf(args) == Strip(p)
    ensures |Strip(p[..i])| <= |args| && |Strip(p[..i + 1])| <= |args|
    ensures |Slots(p[..i], args)| + (if p[i] == SIZEDBUF then 2 else 1) <= AdjustedLength(p)
    ensures !ServerOnly(p[i]) ==> |Strip(p[..i])| < |args| && args[|Strip(p[..i])|].tag == p[i]
    ensures p[..i + 1][..i] == p[..i]
  {
    StripPrefixes(p, i);
    StripPrefixes(p, i + 1);
    PrefixLength(p, i + 1);
    assert p[..i + 1][..i] == p[..i];
    SlotsMatchTypes(p[..i], args);
    FfiTypesLength(p[..i]);
  }

  method ServerSlot(t: Tag, slots: array<Slot>, k: nat, fillLater: seq<Update>,
                    ghost p: seq<Tag>, ghost args: seq<Argument>, ghost i: nat, ghost j: nat, ghost repack: seq<Update>)
    returns (fillNow: seq<Update>)
    requires Built(p, args, i, j, slots, k, fillLater, repack) && TagsOf(args) == Strip(p)
    requires i < |p| && t == p[i] && ServerOnly(t) && slots.Length == AdjustedLength(p)
    modifies slots
    ensures k < slots.Length && Built(p, args, i + 1, j, slots, k + 1, fillNow, repack)
  {
    Room(p, args, i);
    ghost var done := slots[..k];
    slots[k] := Blank(t);
    fillNow := fillLater + [Update(t, 0, 0, k)];
    assert slots[..k + 1] == done + [Blank(t)];
  }

  method ArgumentSlot(a: Argument, slots: array<Slot>, k: nat, repack: seq<Update>,
                      ghost p: seq<Tag>, ghost args: seq<Argument>, ghost i: nat, ghost j: nat,
                      ghost fillLater: seq<Update>)
    returns (next: nat, repackNow: seq<Update>)
    requires Built(p, args, i, j, slots, k, fillLater, repack) && TagsOf(args) == Strip(p)
    requires i < |p| && !ServerOnly(p[i]) && j < |args| && a == args[j] && slots.Length == AdjustedLength(p)
    modifies slots
    ensures Built(p, args, i + 1, j + 1, slots, next, fillLater, repackNow)
  {
    Room(p, args, i);
    ghost var done := slots[..k];
    next, repackNow := k, repack;
    if IsPointer(a.tag) {
      var updIndex := next;
      slots[next] := Pointer(a.value);
      if a.tag == SIZEDBUF {
        next := next + 1;
        slots[next] := Size(a.len);
      }
      repackNow := repack + [Update(a.tag, a.value, if a.tag == SIZEDBUF then a.len else 0, updIndex)];
    } else {
      slots[next] := Scalar(a.tag, a.value);
    }
    next := next + 1;
    assert slots[..next] == done + SlotsOfArgument(a);
  }

  /** ffi_from_drpc: j runs over the arguments and k over the slots. It fails, by
      an assertion, exactly when a parameter that the client sends is void: then
      there is no argument to read. */
  method FfiFromDrpc(args: seq<Argument>, prototype: array<Tag>)
    returns (ok: bool, slots: array<Slot>, fillLater: seq<Update>, repack: seq<Update>)
    requires TagsOf(args) == Strip(prototype[..])
    ensures fresh(slots)
    ensures ok <==> VOID !in Strip(prototype[..])
    ensures ok ==> slots[..] == Slots(prototype[..], args)
    ensures ok ==> fillLater == Fills(prototype[..], args) && repack == Repacks(prototype[..], args)
  {
    hide Strip, Slots, Fills, Repacks, Built;
    ghost var p := prototype[..];
    var adjusted := LengthAdjust(prototype);
    slots := new Slot[adjusted](_ => Given(0));
    fillLater, repack, ok := [], [], true;
    var j, k: nat := 0, 0;
    NothingBuilt(p, args, slots);
    for i := 0 to prototype.Length
      invariant prototype[..] == p && Built(p, args, i, j, slots, k, fillLater, repack)
      invariant j <= |args| && forall x | 0 <= x < j :: args[x].tag != VOID
    {
      Room(p, args, i);
      BuiltSoFar(p, args, i, j, slots, k, fillLater, repack);
      var t := prototype[i];
      if ServerOnly(t) {
        fillLater := ServerSlot(t, slots, k, fillLater, p, args, i, j, repack);
        k := k + 1;
        continue;
      }
      var tag := args[j].tag;
      if tag == VOID {
        ok := false;
        assert TagsOf(args)[j] == VOID;
        return;
      }
      k, repack := ArgumentSlot(args[j], slots, k, repack, p, args, i, j, fillLater);
      j := j + 1;
    }
    assert p[..|p|] == p;
    BuiltSoFar(p, args, |p|, j, slots, k, fillLater, repack);
    SlotsMatchTypes(p, args);
    assert slots[..k] == slots[..] by {
      assert |Slots(p, args)| == |SlotTypes(Slots(p, args))|;
    }
    forall x | 0 <= x < |Strip(p)| ensures Strip(p)[x] != VOID {
      assert TagsOf(args)[x] == args[x].tag;
    }
  }

  lemma NothingBuilt(p: seq<Tag>, args: seq<Argument>, slots: array<Slot>)
    ensures Built(p, args, 0, 0, slots, 0, [], [])
  {
    assert p[..0] == [];
  }

  lemma BuiltSoFar(p: seq<Tag>, args: seq<Argument>, i: nat, j: nat, slots: array<Slot>, k: nat,
                   fillLater: seq<Update>, repack: seq<Update>)
    requires Built(p, args, i, j, slots, k, fillLater, repack)
    ensures i <= |p| && j == |Strip(p[..i])| <= |args|
    ensures k <= slots.Length && slots[..k] == Slots(p[..i], args)
    ensures fillLater == Fills(p[..i], args) && repack == Repacks(p[..i], args)
  {
  }

  // ---------- filling in ----------

  function Filled(s: Slot, env: Tag -> nat): Slot {
    match s
    case Blank(tag) => Given(env(tag))
    case _ => s
  }

  function FilledSlots(slots: seq<Slot>, env: Tag -> nat): seq<Slot> {
    seq(|slots|, i requires 0 <= i < |slots| => Filled(slots[i], env))
  }

  /** One of the updates is about slot k. */
  ghost predicate Covers(updates: seq<Update>, k: nat) {
    exists i :: 0 <= i < |updates| && updates[i].index == k
  }

  lemma {:induction false} BlanksAreCovered(slots: seq<Slot>)
    ensures forall i | 0 <= i < |Blanks(slots)| ::
      var u := Blanks(slots)[i]; u.index < |slots| && slots[u.index] == Blank(u.tag)
    ensures forall k | 0 <= k < |slots| :: slots[k].Blank? <==> Covers(Blanks(slots), k)
  {
    if |slots| > 0 {
      var n := |slots| - 1;
      var before := Blanks(slots[..n]);
      BlanksAreCovered(slots[..n]);
      forall k | 0 <= k < |slots| ensures slots[k].Blank? <==> Covers(Blanks(slots), k) {
        if k < n {
          assert slots[..n][k] == slots[k];
          if Covers(before, k) {
            var i :| 0 <= i < |before| && before[i].index == k;
            assert Blanks(slots)[i].index == k;
          }
        } else if slots[n].Blank? {
          assert Blanks(slots)[|before|].index == n;
        }
      }
    }
  }

  /** The loop over the queue of slots to fill: env gives the function's storage,
      the connection, the server's pointer and the function's record. */
  method FillIn(slots: array<Slot>, fillLater: seq<Update>, env: Tag -> nat)
    requires fillLater == Blanks(slots[..])
    modifies slots
    ensures slots[..] == FilledSlots(old(slots[..]), env)
    ensures forall k | 0 <= k < slots.Length ::
      slots[k] == if old(slots[k]).Blank? then Given(env(old(slots[k]).tag)) else old(slots[k])
  {
    hide Blanks, Covers;
    ghost var before := slots[..];
    BlanksAreCovered(before);
    NoneCovered();
    for i := 0 to |fillLater|
      invariant forall k | 0 <= k < slots.Length ::
        slots[k] == if Covers(fillLater[..i], k) then Filled(before[k], env) else before[k]
    {
      slots[fillLater[i].index] := Given(env(fillLater[i].tag));
      OneMoreCovered(fillLater, i);
    }
    assert fillLater[..|fillLater|] == fillLater;
  }

  lemma NoneCovered()
    ensures forall k :: !Covers([], k)
  {
  }

  lemma OneMoreCovered(updates: seq<Update>, i: nat)
    requires i < |updates|
    ensures updates[..0] == []
    ensures forall k :: Covers(updates[..i + 1], k) <==> Covers(updates[..i], k) || k == updates[i].index
  {
    forall k | k == updates[i].index || Covers(updates[..i], k) ensures Covers(updates[..i + 1], k) {
      if Covers(updates[..i], k) {
        var x :| 0 <= x < i && updates[..i][x].index == k;
        assert updates[..i + 1][x].index == k;
      } else {
        assert updates[..i + 1][i].index == k;
      }
    }
    forall k | Covers(updates[..i + 1], k) && k != updates[i].index ensures Covers(updates[..i], k) {
      var x :| 0 <= x < i + 1 && updates[..i + 1][x].index == k;
      assert updates[..i][x].index == k;
    }
  }

  // ---------- sending back ----------

  /** The last of the arguments that has the returned pointer, or -1. */
  function LastIndex(repack: seq<Update>, result: nat): (i: int)
    ensures -1 <= i < |repack|
    ensures i >= 0 ==> repack[i].ptr == result
    ensures forall x | i < x < |repack| :: repack[x].ptr != result
  {
    if |repack| == 0 then -1
    else if repack[|repack| - 1].ptr == result then |repack| - 1
    else LastIndex(repack[..|repack| - 1], result)
  }

  /** Conversion to an int8_t. */
  function ToInt8(i: int): int {
    var low := i % 256;
    if low < 128 then low else low - 256
  }

  /** The returned pointer is only that of an argument of the return type. */
  ghost predicate RightlyTyped(repack: seq<Update>, result: nat, returnType: Tag) {
    forall i | 0 <= i < |repack| :: repack[i].ptr == result ==> repack[i].tag == returnType
  }

  /** The loop over the queue of arguments to send back; it stops at an assertion
      when the function returned an argument of another type. */
  method Repack(toRepack: seq<Update>, result: nat, returnType: Tag)
    returns (ok: bool, repacked: seq<Update>, returnIs: int)
    ensures ok <==> RightlyTyped(toRepack, result, returnType)
    ensures ok <==> forall i | 0 <= i < |toRepack| :: toRepack[i].ptr == result ==> toRepack[i].tag == returnType
    ensures ok ==> repacked == toRepack && returnIs == ToInt8(LastIndex(toRepack, result))
  {
    ok, repacked, returnIs := true, [], -1;
    for i := 0 to |toRepack|
      invariant repacked == toRepack[..i] && returnIs == ToInt8(LastIndex(toRepack[..i], result))
      invariant RightlyTyped(toRepack[..i], result, returnType)
    {
      var repack := toRepack[i];
      assert toRepack[..i + 1][..i] == toRepack[..i];
      if repack.ptr == result {
        if repack.tag != returnType {
          ok := false;
          return;
        }
        returnIs := ToInt8(i);
      }
      repacked := repacked + [repack];
    }
    assert toRepack[..|toRepack|] == toRepack;
  }
}
