/** The function that passes a call on to another server. */
module MarshalProxy {
  import opened Wrappers
  import opened Marshal
  import opened MarshalServer
  import opened MarshalClient
  import opened MarshalCall

  const PROXY_BASE: seq<Tag> := [FNSTORAGE, CLIENTINFO, FNINFO]

  /** drpc_server_register_proxy_fn: three server-only parameters and then the
      stripped prototype; the call interface is prepared at once. libffi is told of as
      many types as that prototype has, but after a null one there are none, and the
      function has no parameters. */
  method RegisterProxy(prototype: Option<seq<Tag>>, returnType: Tag) returns (fn: Function, announced: nat)
    ensures fresh(fn) && fresh(fn.Prototype) && fn.Valid() && fn.types.Some? && fn.ReturnType == returnType
    ensures fn.Prototype[..] == if prototype.Some? then Clamp(PROXY_BASE + Strip(prototype.value)) else []
    ensures announced == |FfiTypes(PROXY_BASE + Strip(OrEmpty(prototype)))|
    ensures announced == |fn.types.value| <==> prototype.Some?
  {
    hide Strip, AdjustedLength, FfiTypes;
    var client, length := CreateClientPrototype(prototype);
    var all := PROXY_BASE + OrEmpty(client);
    var proxyPrototype := new Tag[|all|](i requires 0 <= i < |all| => all[i]);
    assert proxyPrototype[..] == all;
    announced := LengthAdjust(proxyPrototype);
    if prototype.Some? {
      fn := new Function.Register(proxyPrototype, returnType);
    } else {
      var none := new Tag[0];
      assert none[..] == [];
      fn := new Function.Register(none, returnType);
      NoTypes([]);
    }
    fn.Prepare();
  }

  lemma {:induction false} StripSplits(a: seq<Tag>, b: seq<Tag>)
    ensures Strip(a + b) == Strip(a) + Strip(b)
    decreases |b|
  {
    if |b| == 0 {
      assert a + b == a;
    } else {
      var head := b[..|b| - 1];
      StripSplits(a, head);
      assert (a + b)[..|a + b| - 1] == a + head && (a + b)[|a + b| - 1] == b[|b| - 1];
    }
  }

  /** Stripping twice is stripping once. */
  lemma {:induction false} StripTwice(p: seq<Tag>)
    ensures Strip(Strip(p)) == Strip(p)
  {
    if |p| > 0 {
      var head, t := p[..|p| - 1], p[|p| - 1];
      StripTwice(head);
      if ServerOnly(t) {
        assert Strip(p) == Strip(head);
      } else {
        assert Strip(p)[..|Strip(head)|] == Strip(head);
      }
    }
  }

  lemma StripBase()
    ensures Strip(PROXY_BASE) == []
  {
    assert PROXY_BASE[..2][..1] == PROXY_BASE[..1];
    assert Strip(PROXY_BASE[..1]) == [] && Strip(PROXY_BASE[..2]) == [];
  }

  /** A proxy accepts the calls that the function itself accepts if and only if the
      function's prototype has no tag out of range. */
  lemma ProxyAcceptsTheSame(p: seq<Tag>)
    ensures Strip(PROXY_BASE + Strip(p)) == Strip(p)
    ensures Strip(Clamp(PROXY_BASE + Strip(p))) == Strip(p) <==> InRange(Strip(p))
  {
    StripBase();
    StripSplits(PROXY_BASE, Strip(p));
    StripTwice(p);
    hide Strip;
    ClampKeepsStrip(PROXY_BASE + Strip(p));
    var all := PROXY_BASE + Strip(p);
    if InRange(all) {
      forall i | 0 <= i < |Strip(p)| ensures Strip(p)[i] < RETURN_IS {
        assert all[i + 3] == Strip(p)[i];
      }
    }
  }

  /** The slots of a proxy: its three own, then those of the client's arguments. */
  lemma {:induction false} ProxySlots(q: seq<Tag>, args: seq<Argument>)
    requires |q| <= |args| && q == TagsOf(args)[..|q|] && forall i | 0 <= i < |q| :: !ServerOnly(q[i])
    ensures Strip(PROXY_BASE + q) == q
    ensures Slots(PROXY_BASE + q, args) == [Blank(FNSTORAGE), Blank(CLIENTINFO), Blank(FNINFO)] + Flat(args[..|q|])
  {
    hide SlotsOfArgument;
    var p := PROXY_BASE + q;
    if |q| == 0 {
      BaseSlots(args);
      assert p == PROXY_BASE;
      assert args[..0] == [];
    } else {
      var n := |q| - 1;
      ProxySlots(q[..n], args);
      assert p[..|p| - 1] == PROXY_BASE + q[..n] && p[|p| - 1] == q[n];
      assert args[..n + 1][..n] == args[..n];
      assert q == q[..n] + [q[n]];
    }
  }

  lemma BaseSlots(args: seq<Argument>)
    ensures Strip(PROXY_BASE) == []
    ensures Slots(PROXY_BASE, args) == [Blank(FNSTORAGE), Blank(CLIENTINFO), Blank(FNINFO)]
  {
    StripBase();
    var one, two := PROXY_BASE[..1], PROXY_BASE[..2];
    assert two[..1] == one && one[..0] == [];
    assert Strip(one) == [] && Strip(two) == [];
    assert Slots(one, args) == [Blank(FNSTORAGE)];
    assert Slots(two, args) == [Blank(FNSTORAGE), Blank(CLIENTINFO)];
    assert PROXY_BASE[..2] == two;
  }

  /** A call of the proxy: the variable arguments behind its three own parameters
      are read by the tail of its prototype. If the call is answered, nothing was out
      of range, and the call that goes on to the other server has what the client's
      array keeps of the arguments that came in, unless one of them is null. */
  method ForwardCall(fn: Function, ghost p: seq<Tag>, args: seq<Argument>, cast: (Tag, nat) -> nat,
                     env: Tag -> nat, result: nat)
    returns (reply: CallReply, ok: bool, forwarded: seq<Option<Argument>>)
    requires fn.Valid() && fn.types.Some? && fn.Prototype[..] == Clamp(PROXY_BASE + Strip(p)) && Sized(args)
    modifies fn, fn.Prototype
    ensures fn.Valid() && fn.Prototype[..] == old(fn.Prototype[..])
    ensures reply.BadArguments? <==> TagsOf(args) != Clamp(Strip(p))
    ensures reply.Crashed? <==>
      (TagsOf(args) == Strip(old(fn.Prototype[..]))
        && (VOID in Clamp(Strip(p)) || !RightlyTyped(Repacks(old(fn.Prototype[..]), args), result, fn.ReturnType)))
    ensures reply.Replied? ==> TagsOf(args) == Strip(p) && (ok <==> NoNull(args))
    ensures reply.Replied? && ok ==>
      forwarded == seq(|args|, i requires 0 <= i < |args| => Some(KeptArgument(args[i], cast)))
  {
    hide Strip, Slots, Repacks, Flat, FilledSlots, Sent, Kept;
    StripHasNoServerOnly(p);
    ClampedTail(Strip(p));
    reply := fn.CallFn(Some(args), env, result);
    ok, forwarded := true, [];
    if reply.Replied? {
      AnsweredIsPlain(p, args);
      ProxySlots(Strip(p), args);
      assert args[..|args|] == args;
      FilledTail([Blank(FNSTORAGE), Blank(CLIENTINFO), Blank(FNINFO)], args, env);
      PlainPlaces(args, cast);
      var repackable;
      ok, forwarded, repackable := ReadArguments(fn.Prototype[3..], reply.vector[3..], cast, args);
    }
  }

  /** Where nothing is void, nothing was clamped. */
  lemma AnsweredIsPlain(p: seq<Tag>, args: seq<Argument>)
    requires Sized(args) && TagsOf(args) == Clamp(Strip(p)) && VOID !in Clamp(Strip(p))
    ensures Plain(args) && Clamp(Strip(p)) == Strip(p) && Clamp(PROXY_BASE + Strip(p)) == PROXY_BASE + Strip(p)
  {
    StripHasNoServerOnly(p);
    hide Strip;
    var q := Strip(p);
    forall i | 0 <= i < |q| ensures Sendable(args[i].tag) && q[i] < RETURN_IS {
      assert TagsOf(args)[i] == args[i].tag;
      assert Clamp(q)[i] != VOID;
    }
  }

  /** Calls with types that a client passes on are accepted by the proxy exactly
      when they are by the function itself, and then nothing was clamped. */
  lemma PlainCallsOfProxy(p: seq<Tag>, args: seq<Argument>)
    requires Plain(args)
    ensures TagsOf(args) == Strip(Clamp(PROXY_BASE + Strip(p))) <==> TagsOf(args) == Strip(p)
    ensures TagsOf(args) == Strip(p) ==> Clamp(PROXY_BASE + Strip(p)) == PROXY_BASE + Strip(p)
  {
    hide Strip;
    ProxyAcceptsTheSame(p);
    var q := Strip(p);
    if TagsOf(args) == q {
      forall i | 0 <= i < |q| ensures q[i] < RETURN_IS {
        assert TagsOf(args)[i] == args[i].tag;
      }
    }
    if TagsOf(args) == Strip(Clamp(PROXY_BASE + q)) {
      StripHasNoServerOnly(p);
      ClampedTail(q);
      forall i | 0 <= i < |q| ensures q[i] < RETURN_IS {
        assert TagsOf(args)[i] == args[i].tag;
        assert Clamp(q)[i] == args[i].tag;
      }
    }
  }

  lemma ClampedTail(q: seq<Tag>)
    requires forall i | 0 <= i < |q| :: !ServerOnly(q[i])
    ensures Strip(Clamp(PROXY_BASE + q)) == Clamp(q)
  {
    assert Clamp(PROXY_BASE + q) == PROXY_BASE + Clamp(q);
    StripBase();
    StripSplits(PROXY_BASE, Clamp(q));
    hide Strip;
    NothingToStrip(Clamp(q));
  }

  lemma {:induction false} NothingToStrip(q: seq<Tag>)
    requires forall i | 0 <= i < |q| :: !ServerOnly(q[i])
    ensures Strip(q) == q
  {
    if |q| > 0 {
      NothingToStrip(q[..|q| - 1]);
    }
  }

  lemma {:induction false} StripHasNoServerOnly(p: seq<Tag>)
    ensures forall i | 0 <= i < |Strip(p)| :: !ServerOnly(Strip(p)[i])
  {
    if |p| > 0 {
      StripHasNoServerOnly(p[..|p| - 1]);
    }
  }

  lemma {:induction false} FlatHasNoBlanks(args: seq<Argument>)
    ensures forall i | 0 <= i < |Flat(args)| :: !Flat(args)[i].Blank?
  {
    if |args| > 0 {
      FlatHasNoBlanks(args[..|args| - 1]);
    }
  }

  lemma FilledTail(base: seq<Slot>, args: seq<Argument>, env: Tag -> nat)
    ensures |FilledSlots(base + Flat(args), env)| == |base| + |Flat(args)|
    ensures FilledSlots(base + Flat(args), env)[|base|..] == Flat(args)
  {
    FlatHasNoBlanks(args);
    hide Flat;
  }
}
