/** The passes over a prototype place by place, with the numbers of enum drpc_types
    written out: where a parameter's slots, types and queue entries are. */
module MarshalPlaces {
  import opened Marshal
  import opened MarshalServer
  import opened MarshalClient
  import opened MarshalProxy

  /** How many types of the prototype are from lo to hi. */
  function Among(p: seq<Tag>, lo: Tag, hi: Tag): (n: nat)
    ensures n <= |p|
  {
    if |p| == 0 then 0
    else Among(p[..|p| - 1], lo, hi) + if lo <= p[|p| - 1] <= hi then 1 else 0
  }

  lemma AmongLast(head: seq<Tag>, t: Tag, lo: Tag, hi: Tag)
    ensures Among(head + [t], lo, hi) == Among(head, lo, hi) + if lo <= t <= hi then 1 else 0
    ensures (head + [t])[..|head|] == head
  {
    assert (head + [t])[..|head|] == head;
  }

  /** The types by their numbers. */
  lemma TagNumbers(t: Tag)
    ensures ServerOnly(t) <==> 16 <= t <= 19
    ensures IsPointer(t) <==> 11 <= t <= 15
    ensures Sendable(t) <==> 1 <= t <= 15
    ensures t == SIZEDBUF <==> t == 12
    ensures t == VOID <==> t == 0
    ensures t >= RETURN_IS <==> t >= 20
    ensures Floating(t) <==> t == 9 || t == 10
    ensures FNSTORAGE == 16 && CLIENTINFO == 17 && INTERFUNC == 18 && FNINFO == 19
    ensures PROXY_BASE == [16, 17, 19]
  {
  }

  // ---------- the stripped prototype ----------

  /** Stripping keeps the others, in order: type i goes down by as many places as
      there are server-only types before it. */
  lemma {:induction false} StripAt(p: seq<Tag>, i: nat)
    requires i < |p|
    ensures |Strip(p)| == |p| - Among(p, 16, 19)
    ensures !(16 <= p[i] <= 19) ==>
      var j := i - Among(p[..i], 16, 19); 0 <= j < |Strip(p)| && Strip(p)[j] == p[i]
  {
    var head, t := p[..|p| - 1], p[|p| - 1];
    TagNumbers(t);
    if |head| == 0 {
      assert Strip(head) == [] && Among(head, 16, 19) == 0;
    }
    if i < |head| {
      StripAt(head, i);
      assert head[..i] == p[..i];
    } else if |head| > 0 {
      StripAt(head, 0);
      assert p[..i] == head;
    }
  }

  /** Tags out of range become void. */
  lemma ClampAt(p: seq<Tag>, i: nat)
    requires i < |p|
    ensures Clamp(p)[i] == if p[i] >= 20 then 0 else p[i]
  {
    TagNumbers(p[i]);
  }

  // ---------- the types for libffi ----------

  lemma OneTypeMore(head: seq<Tag>, t: Tag)
    ensures FfiTypes(head + [t]) == FfiTypes(head) +
      if t == 12 then [FfiPointer, FfiUlong]
      else if t <= 10 then [FfiScalar(t)] else if t <= 19 then [FfiPointer] else [FfiScalar(0)]
  {
    assert (head + [t])[..|head|] == head;
    TagNumbers(t);
  }

  lemma {:induction false} HowManyTypes(p: seq<Tag>)
    ensures |FfiTypes(p)| == |p| + Among(p, 12, 12)
  {
    if |p| > 0 {
      var head, t := p[..|p| - 1], p[|p| - 1];
      assert p == head + [t];
      hide FfiTypes, Among;
      HowManyTypes(head);
      OneTypeMore(head, t);
      AmongLast(head, t, 12, 12);
    }
  }

  /** Type i goes up by one place for each sized buffer before it; a sized buffer has
      its length behind it. */
  lemma {:induction false} FfiTypeAt(p: seq<Tag>, i: nat)
    requires i < |p|
    ensures var k, types := i + Among(p[..i], 12, 12), FfiTypes(p);
      && |types| == |p| + Among(p, 12, 12) && k < |types|
      && types[k] == (if p[i] <= 10 then FfiScalar(p[i]) else if p[i] <= 19 then FfiPointer else FfiScalar(0))
      && (p[i] == 12 ==> k + 1 < |types| && types[k + 1] == FfiUlong)
  {
    hide FfiTypes, Among;
    var head, t := p[..|p| - 1], p[|p| - 1];
    assert p == head + [t];
    OneTypeMore(head, t);
    HowManyTypes(head);
    HowManyTypes(p);
    if i < |head| {
      FfiTypeAt(head, i);
      assert head[..i] == p[..i] && head[i] == p[i];
    } else {
      assert p[..i] == head;
    }
  }

  // ---------- the vector and the queues ----------

  /** What the passes have for parameter i: j of the client's arguments come before
      it, and k slots. */
  ghost predicate Placed(p: seq<Tag>, args: seq<Argument>, i: nat)
    requires i < |p| && |Strip(p)| <= |args|
  {
    var j, k := i - Among(p[..i], 16, 19), i + Among(p[..i], 12, 12);
    var slots, fills, repacks := Slots(p, args), Fills(p, args), Repacks(p, args);
    && |slots| == |p| + Among(p, 12, 12) && k < |slots|
    && |fills| == Among(p, 16, 19) && |repacks| == Among(p, 11, 15)
    && (16 <= p[i] <= 19 ==>
          var f := Among(p[..i], 16, 19);
          slots[k] == Blank(p[i]) && f < |fills| && fills[f] == Update(p[i], 0, 0, k))
    && (!(16 <= p[i] <= 19) ==>
          && 0 <= j < |args|
          && (p[i] <= 10 || 20 <= p[i] ==> slots[k] == Scalar(p[i], args[j].value))
          && (11 <= p[i] <= 15 ==>
                var r := Among(p[..i], 11, 15);
                && slots[k] == Pointer(args[j].value)
                && r < |repacks|
                && repacks[r] == Update(p[i], args[j].value, if p[i] == 12 then args[j].len else 0, k))
          && (p[i] == 12 ==> k + 1 < |slots| && slots[k + 1] == Size(args[j].len)))
  }

  /** One more parameter, in the vector and both queues. */
  lemma OnePlaceMore(head: seq<Tag>, t: Tag, args: seq<Argument>)
    requires |Strip(head + [t])| <= |args| && Strip(head + [t]) == TagsOf(args)[..|Strip(head + [t])|]
    ensures |Strip(head)| <= |args| && Strip(head) == TagsOf(args)[..|Strip(head)|]
    ensures var p, j, k := head + [t], |Strip(head)|, |Slots(head, args)|;
      && (16 <= t <= 19 ==>
            && Slots(p, args) == Slots(head, args) + [Blank(t)]
            && Fills(p, args) == Fills(head, args) + [Update(t, 0, 0, k)] && Repacks(p, args) == Repacks(head, args))
      && (!(16 <= t <= 19) ==>
            && j < |args| && Fills(p, args) == Fills(head, args)
            && (!(11 <= t <= 15) ==>
                  && Slots(p, args) == Slots(head, args) + [Scalar(t, args[j].value)]
                  && Repacks(p, args) == Repacks(head, args))
            && (11 <= t <= 15 ==>
                  && Slots(p, args) == Slots(head, args) + [Pointer(args[j].value)]
                                       + (if t == 12 then [Size(args[j].len)] else [])
                  && Repacks(p, args) == Repacks(head, args)
                                         + [Update(t, args[j].value, if t == 12 then args[j].len else 0, k)]))
  {
    var p := head + [t];
    assert p[..|p| - 1] == head;
    TagNumbers(t);
    StripPrefix(p, Strip(p));
    OneMore(head, t, args);
  }

  lemma {:induction false} HowManyPlaces(p: seq<Tag>, args: seq<Argument>)
    requires |Strip(p)| <= |args| && Strip(p) == TagsOf(args)[..|Strip(p)|]
    ensures |Strip(p)| == |p| - Among(p, 16, 19) && |Slots(p, args)| == |p| + Among(p, 12, 12)
    ensures |Fills(p, args)| == Among(p, 16, 19) && |Repacks(p, args)| == Among(p, 11, 15)
  {
    if |p| > 0 {
      StripAt(p, 0);
      var head, t := p[..|p| - 1], p[|p| - 1];
      assert p == head + [t];
      hide Slots, Fills, Repacks, Strip, Among;
      OnePlaceMore(head, t, args);
      HowManyPlaces(head, args);
      AmongLast(head, t, 12, 12);
      AmongLast(head, t, 16, 19);
      AmongLast(head, t, 11, 15);
    }
  }

  lemma {:induction false} PlacedAt(p: seq<Tag>, args: seq<Argument>, i: nat)
    requires i < |p| && |Strip(p)| <= |args| && Strip(p) == TagsOf(args)[..|Strip(p)|]
    ensures Placed(p, args, i)
  {
    hide Slots, Fills, Repacks, Strip, Among;
    var head, t := p[..|p| - 1], p[|p| - 1];
    assert p == head + [t];
    OnePlaceMore(head, t, args);
    HowManyPlaces(head, args);
    HowManyPlaces(p, args);
    if i < |head| {
      PlacedAt(head, args, i);
      assert head[..i] == p[..i] && head[i] == p[i];
    } else {
      assert p[..i] == head;
    }
  }

  // ---------- the returned index ----------

  /** An int8_t is what is left of the index modulo 256. */
  lemma ReturnedByte(i: int)
    ensures -128 <= ToInt8(i) < 128 && (i - ToInt8(i)) % 256 == 0
  {
  }
}
