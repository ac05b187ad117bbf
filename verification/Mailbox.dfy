/** Message queues moved element by element, as the mailbox handlers and the
    client's mailbox receive do: each mover reads the length of its source once
    and then pops and pushes that many times. A pop and a push are atomic; movers
    interleave freely, so a pop may find the queue already emptied by another
    mover, and then a null placeholder is pushed. */
module Mailbox {
  import opened Wrappers

  /** A message is the address of its element. */
  type Message = nat

  /** None is the null placeholder. */
  type Queue = seq<Option<Message>>

  /** A mover with entries still to move and perhaps one in its hand. moved and
      from are the messages it has taken and their places among all those taken
      from its source. */
  datatype Mover = Mover(source: nat, target: nat, todo: nat, carrying: bool, hand: Option<Message>,
                         moved: seq<Message>, from: seq<nat>)

  /** put and taken are the histories of each queue. */
  datatype State = State(queues: seq<Queue>, movers: seq<Mover>, put: seq<seq<Message>>, taken: seq<seq<Message>>)

  datatype Action = Start(source: nat, target: nat) | Pop(m: nat) | Push(m: nat)

  predicate Enabled(s: State, a: Action) {
    match a
    case Start(source, target) => source < |s.queues| && target < |s.queues|
    case Pop(m) => m < |s.movers| && s.movers[m].todo > 0 && !s.movers[m].carrying
    case Push(m) => m < |s.movers| && s.movers[m].carrying
  }

  /** The messages of a queue, without the placeholders. */
  function Messages(q: Queue): seq<Message> {
    if q == [] then []
    else Messages(q[..|q| - 1]) + Listed(q[|q| - 1])
  }

  function Listed(e: Option<Message>): seq<Message> {
    match e
    case None => []
    case Some(x) => [x]
  }

  ghost predicate WellFormed(s: State) {
    && |s.put| == |s.taken| == |s.queues|
    && forall m | 0 <= m < |s.movers| :: s.movers[m].source < |s.queues| && s.movers[m].target < |s.queues|
                                          && (s.movers[m].carrying ==> s.movers[m].todo > 0)
  }

  function Step(s: State, a: Action): State
    requires WellFormed(s) && Enabled(s, a)
  {
    match a
    case Start(source, target) =>
      s.(movers := s.movers + [Mover(source, target, |s.queues[source]|, false, None, [], [])])
    case Pop(m) =>
      var mover := s.movers[m];
      var q := s.queues[mover.source];
      if q == [] then
        s.(movers := s.movers[m := mover.(carrying := true, hand := None)])
      else
        var place := |s.taken[mover.source]|;
        var x := Listed(q[0]);
        s.(queues := s.queues[mover.source := q[1..]],
           movers := s.movers[m := mover.(carrying := true, hand := q[0],
                                          moved := mover.moved + x, from := mover.from + seq(|x|, i => place))],
           taken := s.taken[mover.source := s.taken[mover.source] + x])
    case Push(m) =>
      var mover := s.movers[m];
      s.(queues := s.queues[mover.target := s.queues[mover.target] + [mover.hand]],
         movers := s.movers[m := mover.(carrying := false, hand := None, todo := mover.todo - 1)],
         put := s.put[mover.target := s.put[mover.target] + Listed(mover.hand)])
  }

  // ---------- the invariant ----------

  function Copies(e: Option<Message>, x: Message): nat {
    if e == Some(x) then 1 else 0
  }

  ghost function InQueue(q: Queue, x: Message): nat {
    if q == [] then 0 else InQueue(q[..|q| - 1], x) + Copies(q[|q| - 1], x)
  }

  ghost function InQueues(queues: seq<Queue>, x: Message): nat {
    if queues == [] then 0
    else InQueues(queues[..|queues| - 1], x) + InQueue(queues[|queues| - 1], x)
  }

  ghost function InHands(movers: seq<Mover>, x: Message): nat {
    if movers == [] then 0
    else InHands(movers[..|movers| - 1], x) + Copies(movers[|movers| - 1].hand, x)
  }

  /** How many places hold the message x: queues and hands together. */
  ghost function Places(s: State, x: Message): nat {
    InQueues(s.queues, x) + InHands(s.movers, x)
  }

  ghost predicate InOrder(mover: Mover, taken: seq<Message>) {
    && |mover.from| == |mover.moved|
    && (forall i | 0 <= i < |mover.from| :: mover.from[i] < |taken| && taken[mover.from[i]] == mover.moved[i])
    && (forall i, j | 0 <= i < j < |mover.from| :: mover.from[i] < mover.from[j])
  }

  /** What was put into a queue and not yet taken is in it, in the same order. */
  ghost predicate FirstInFirstOut(s: State)
    requires WellFormed(s)
  {
    forall q | 0 <= q < |s.queues| :: s.put[q] == s.taken[q] + Messages(s.queues[q])
  }

  ghost predicate Ordered(s: State)
    requires WellFormed(s)
  {
    forall m | 0 <= m < |s.movers| :: InOrder(s.movers[m], s.taken[s.movers[m].source])
  }

  ghost predicate Inv(s: State) {
    && WellFormed(s)
    && FirstInFirstOut(s) && Ordered(s)
    && (forall m | 0 <= m < |s.movers| :: !s.movers[m].carrying ==> s.movers[m].hand == None)
  }

  lemma {:induction false} MessagesConcat(a: Queue, b: Queue)
    ensures Messages(a + b) == Messages(a) + Messages(b)
  {
    if b == [] {
      assert a + b == a;
    } else {
      assert (a + b)[..|a + b| - 1] == a + b[..|b| - 1];
      MessagesConcat(a, b[..|b| - 1]);
    }
  }

  lemma MessagesFirst(q: Queue)
    requires q != []
    ensures Messages(q) == Listed(q[0]) + Messages(q[1..])
  {
    assert q == [q[0]] + q[1..];
    MessagesConcat([q[0]], q[1..]);
    InQueueOne(q[0], 0);
  }

  lemma {:induction false} InQueueConcat(a: Queue, b: Queue, x: Message)
    ensures InQueue(a + b, x) == InQueue(a, x) + InQueue(b, x)
  {
    if b == [] {
      assert a + b == a;
    } else {
      assert (a + b)[..|a + b| - 1] == a + b[..|b| - 1];
      InQueueConcat(a, b[..|b| - 1], x);
    }
  }

  lemma InQueueOne(e: Option<Message>, x: Message)
    ensures InQueue([e], x) == Copies(e, x) && Messages([e]) == Listed(e)
  {
    assert [e][..0] == [];
    assert Messages([e]) == Messages([]) + Listed(e);
  }

  lemma {:induction false} QueueUpdate(queues: seq<Queue>, i: nat, q: Queue, x: Message)
    requires i < |queues|
    ensures InQueues(queues[i := q], x) + InQueue(queues[i], x) == InQueues(queues, x) + InQueue(q, x)
  {
    var n := |queues| - 1;
    if i < n {
      assert queues[i := q][..n] == queues[..n][i := q];
      QueueUpdate(queues[..n], i, q, x);
    } else {
      assert queues[i := q][..n] == queues[..n];
    }
  }

  lemma {:induction false} HandUpdate(movers: seq<Mover>, i: nat, mover: Mover, x: Message)
    requires i < |movers|
    ensures InHands(movers[i := mover], x) + Copies(movers[i].hand, x) == InHands(movers, x) + Copies(mover.hand, x)
  {
    var n := |movers| - 1;
    if i < n {
      assert movers[i := mover][..n] == movers[..n][i := mover];
      HandUpdate(movers[..n], i, mover, x);
    } else {
      assert movers[i := mover][..n] == movers[..n];
    }
  }

  lemma PlacesStep(s: State, a: Action, x: Message)
    requires Inv(s) && Enabled(s, a)
    ensures Places(Step(s, a), x) == Places(s, x)
  {
    hide FirstInFirstOut, Ordered, Messages, InQueue, InQueues;
    var t := Step(s, a);
    match a {
      case Start(_, _) =>
        assert t.movers[..|s.movers|] == s.movers;
      case Pop(m) =>
        var q := s.queues[s.movers[m].source];
        HandUpdate(s.movers, m, t.movers[m], x);
        if q != [] {
          QueueUpdate(s.queues, s.movers[m].source, q[1..], x);
          assert q == [q[0]] + q[1..];
          InQueueConcat([q[0]], q[1..], x);
          InQueueOne(q[0], x);
        }
      case Push(m) =>
        var mover := s.movers[m];
        var q := s.queues[mover.target];
        HandUpdate(s.movers, m, t.movers[m], x);
        QueueUpdate(s.queues, mover.target, q + [mover.hand], x);
        InQueueConcat(q, [mover.hand], x);
        InQueueOne(mover.hand, x);
    }
  }

  lemma FirstInFirstOutStep(s: State, a: Action)
    requires WellFormed(s) && FirstInFirstOut(s) && Enabled(s, a)
    ensures WellFormed(Step(s, a)) && FirstInFirstOut(Step(s, a))
  {
    hide Messages;
    match a {
      case Start(_, _) =>
      case Pop(m) =>
        var q := s.queues[s.movers[m].source];
        if q != [] {
          MessagesFirst(q);
        }
      case Push(m) =>
        var mover := s.movers[m];
        MessagesConcat(s.queues[mover.target], [mover.hand]);
        InQueueOne(mover.hand, 0);
    }
  }

  lemma OrderedStep(s: State, a: Action)
    requires WellFormed(s) && Ordered(s) && Enabled(s, a)
    ensures WellFormed(Step(s, a)) && Ordered(Step(s, a))
  {
    hide Messages;
  }

  lemma InvStep(s: State, a: Action)
    requires Inv(s) && Enabled(s, a)
    ensures Inv(Step(s, a))
  {
    hide FirstInFirstOut, Ordered;
    FirstInFirstOutStep(s, a);
    OrderedStep(s, a);
  }

  // ---------- runs ----------

  ghost predicate IsRun(s: State, actions: seq<Action>)
    decreases |actions|
  {
    WellFormed(s) &&
    (actions == [] || (Enabled(s, actions[0]) && IsRun(Step(s, actions[0]), actions[1..])))
  }

  ghost function After(s: State, actions: seq<Action>): State
    requires IsRun(s, actions)
    decreases |actions|
  {
    if actions == [] then s else After(Step(s, actions[0]), actions[1..])
  }

  /** Some queues, no mover yet. */
  ghost function Initial(queues: seq<Queue>): State {
    State(queues, [], seq(|queues|, q requires 0 <= q < |queues| => Messages(queues[q])), seq(|queues|, q => []))
  }

  lemma {:induction false} InvRun(s: State, actions: seq<Action>, x: Message)
    requires Inv(s) && IsRun(s, actions)
    ensures Inv(After(s, actions)) && Places(After(s, actions), x) == Places(s, x)
    decreases |actions|
  {
    hide Inv, Enabled, Step, Places;
    if actions != [] {
      InvStep(s, actions[0]);
      PlacesStep(s, actions[0], x);
      InvRun(Step(s, actions[0]), actions[1..], x);
    }
  }

  /** In every interleaving of any number of movers a message is in as many
      places as at first: none is lost and none is duplicated. */
  lemma Conservation(queues: seq<Queue>, actions: seq<Action>, x: Message)
    requires IsRun(Initial(queues), actions)
    ensures Places(After(Initial(queues), actions), x) == InQueues(queues, x)
  {
    InvRun(Initial(queues), actions, x);
  }

  /** A mover takes messages in the order in which they were put into its source. */
  lemma TakenInOrder(queues: seq<Queue>, actions: seq<Action>, m: nat)
    requires IsRun(Initial(queues), actions) && m < |After(Initial(queues), actions).movers|
    ensures var s := After(Initial(queues), actions);
      var mover := s.movers[m];
      WellFormed(s) && InOrder(mover, s.put[mover.source])
  {
    InvRun(Initial(queues), actions, 0);
    var s := After(Initial(queues), actions);
    var source := s.movers[m].source;
    assert s.put[source] == s.taken[source] + Messages(s.queues[source]);
    assert InOrder(s.movers[m], s.taken[source]);
  }

  // ---------- when placeholders arise ----------

  ghost predicate NoPlaceholder(s: State) {
    && (forall q, i | 0 <= q < |s.queues| && 0 <= i < |s.queues[q]| :: s.queues[q][i].Some?)
    && (forall m | 0 <= m < |s.movers| && s.movers[m].carrying :: s.movers[m].hand.Some?)
  }

  /** By how many entries a mover can still shorten its source. One that moves a queue
      onto itself must put back what it has before it takes more. */
  function Takes(mover: Mover): nat {
    if mover.source == mover.target then if mover.carrying || mover.todo == 0 then 0 else 1
    else if mover.carrying && mover.todo > 0 then mover.todo - 1
    else mover.todo
  }

  function Wants(mover: Mover, q: nat): nat {
    if mover.source == q then Takes(mover) else 0
  }

  /** What all movers under way can still take out of queue q. */
  function Demand(movers: seq<Mover>, q: nat): nat {
    if movers == [] then 0 else Demand(movers[..|movers| - 1], q) + Wants(movers[|movers| - 1], q)
  }

  /** No queue is asked for more than it has. */
  predicate Enough(s: State) {
    forall q | 0 <= q < |s.queues| :: Demand(s.movers, q) <= |s.queues[q]|
  }

  lemma {:induction false} DemandUpdate(movers: seq<Mover>, i: nat, mover: Mover, q: nat)
    requires i < |movers|
    ensures Demand(movers[i := mover], q) + Wants(movers[i], q) == Demand(movers, q) + Wants(mover, q)
  {
    hide Wants;
    var n := |movers| - 1;
    if i < n {
      assert movers[i := mover][..n] == movers[..n][i := mover];
      DemandUpdate(movers[..n], i, mover, q);
    } else {
      assert movers[i := mover][..n] == movers[..n];
    }
  }

  lemma {:induction false} DemandIncludes(movers: seq<Mover>, i: nat)
    requires i < |movers|
    ensures Takes(movers[i]) <= Demand(movers, movers[i].source)
  {
    hide Takes;
    if i < |movers| - 1 {
      DemandIncludes(movers[..|movers| - 1], i);
    }
  }

  /** Where there is demand, there is a mover that can still take. */
  lemma {:induction false} SomeoneTakes(movers: seq<Mover>, q: nat) returns (m: nat)
    requires Demand(movers, q) > 0
    ensures m < |movers| && movers[m].source == q && Takes(movers[m]) > 0
  {
    m := |movers| - 1;
    if Wants(movers[m], q) == 0 {
      m := SomeoneTakes(movers[..m], q);
    }
  }

  /** Pops and pushes, with no new movers. */
  predicate OnlyMoves(actions: seq<Action>) {
    forall i | 0 <= i < |actions| :: !actions[i].Start?
  }

  lemma EnoughStep(s: State, a: Action)
    requires WellFormed(s) && Enough(s) && NoPlaceholder(s) && Enabled(s, a) && !a.Start?
    ensures Enough(Step(s, a)) && NoPlaceholder(Step(s, a))
  {
    hide Demand;
    var t := Step(s, a);
    forall q | 0 <= q < |t.queues| ensures Demand(t.movers, q) <= |t.queues[q]| {
      DemandUpdate(s.movers, a.m, t.movers[a.m], q);
      DemandIncludes(s.movers, a.m);
    }
    if a.Pop? {
      DemandIncludes(s.movers, a.m);
    }
  }

  /** Whoever finds enough finds it in every order of the pops and pushes. */
  lemma {:induction false} EnoughSuffices(s: State, actions: seq<Action>)
    requires WellFormed(s) && Enough(s) && NoPlaceholder(s) && IsRun(s, actions) && OnlyMoves(actions)
    ensures NoPlaceholder(After(s, actions))
    decreases |actions|
  {
    hide Enough, NoPlaceholder, Enabled, Step;
    if actions != [] {
      EnoughStep(s, actions[0]);
      EnoughSuffices(Step(s, actions[0]), actions[1..]);
    }
  }

  lemma RunOfOneMore(s: State, a: Action, rest: seq<Action>)
    requires WellFormed(s) && Enabled(s, a) && IsRun(Step(s, a), rest)
    ensures IsRun(s, [a] + rest) && After(s, [a] + rest) == After(Step(s, a), rest)
  {
    hide Enabled, Step;
    assert ([a] + rest)[1..] == rest;
  }

  /** A queue that is asked for more than it has can be emptied before the last of
      its movers comes. */
  lemma {:induction false} EmptyHanded(s: State, q: nat) returns (actions: seq<Action>)
    requires WellFormed(s) && q < |s.queues| && |s.queues[q]| < Demand(s.movers, q)
    ensures IsRun(s, actions) && OnlyMoves(actions) && !NoPlaceholder(After(s, actions))
    decreases |s.queues[q]|
  {
    hide NoPlaceholder, Demand;
    var m := SomeoneTakes(s.movers, q);
    if s.movers[m].carrying {
      var t := Step(s, Push(m));
      DemandUpdate(s.movers, m, t.movers[m], q);
      actions := PopFirst(t, q, m);
      RunOfOneMore(s, Push(m), actions);
      actions := [Push(m)] + actions;
    } else {
      actions := PopFirst(s, q, m);
    }
  }

  lemma {:induction false} PopFirst(s: State, q: nat, m: nat) returns (actions: seq<Action>)
    requires WellFormed(s) && q < |s.queues| && |s.queues[q]| < Demand(s.movers, q)
    requires Enabled(s, Pop(m)) && s.movers[m].source == q && Takes(s.movers[m]) > 0
    ensures IsRun(s, actions) && OnlyMoves(actions) && !NoPlaceholder(After(s, actions))
    decreases |s.queues[q]|, 0
  {
    hide Demand;
    var t := Step(s, Pop(m));
    var rest := [];
    if s.queues[q] == [] {
      assert t.movers[m].carrying && t.movers[m].hand == None;
    } else {
      DemandUpdate(s.movers, m, t.movers[m], q);
      rest := EmptyHanded(t, q);
    }
    RunOfOneMore(s, Pop(m), rest);
    actions := [Pop(m)] + rest;
  }

  /** Exactly when every queue has enough for the movers under way, no schedule of
      theirs makes a placeholder. */
  lemma EnoughIsExact(s: State)
    requires WellFormed(s) && NoPlaceholder(s)
    ensures Enough(s) <==>
      forall actions | IsRun(s, actions) && OnlyMoves(actions) :: NoPlaceholder(After(s, actions))
  {
    hide NoPlaceholder;
    if Enough(s) {
      forall actions | IsRun(s, actions) && OnlyMoves(actions) ensures NoPlaceholder(After(s, actions)) {
        EnoughSuffices(s, actions);
      }
    } else {
      var q :| 0 <= q < |s.queues| && Demand(s.movers, q) > |s.queues[q]|;
      var actions := EmptyHanded(s, q);
    }
  }

  /** What a new mover may be started on: a queue that nobody else will take from, or,
      to be moved onto itself, one that has an entry to spare. */
  predicate MayStart(s: State, source: nat, target: nat)
    requires source < |s.queues|
  {
    s.queues[source] == [] ||
    if source == target then Demand(s.movers, source) < |s.queues[source]| else Demand(s.movers, source) == 0
  }

  /** Where there is enough, there still is after a start if and only if it was allowed. */
  lemma StartKeepsEnough(s: State, source: nat, target: nat)
    requires WellFormed(s) && Enough(s) && NoPlaceholder(s) && Enabled(s, Start(source, target))
    ensures Enough(Step(s, Start(source, target))) <==> MayStart(s, source, target)
    ensures NoPlaceholder(Step(s, Start(source, target)))
  {
    var t := Step(s, Start(source, target));
    assert t.movers[..|s.movers|] == s.movers;
    forall q ensures Demand(t.movers, q) == Demand(s.movers, q) + Wants(t.movers[|s.movers|], q) {
    }
    hide Demand;
    assert Enough(t) <==> Demand(t.movers, source) <= |t.queues[source]|;
  }

  /** Every mover is started where it may be. */
  ghost predicate Careful(s: State, actions: seq<Action>)
    requires IsRun(s, actions)
    decreases |actions|
  {
    actions == [] ||
    ((actions[0].Start? ==> MayStart(s, actions[0].source, actions[0].target))
      && Careful(Step(s, actions[0]), actions[1..]))
  }

  /** Then no placeholder ever arises, and none can, however the run goes on. */
  lemma {:induction false} NoRaceNoPlaceholder(s: State, actions: seq<Action>)
    requires WellFormed(s) && Enough(s) && NoPlaceholder(s) && IsRun(s, actions) && Careful(s, actions)
    ensures NoPlaceholder(After(s, actions)) && Enough(After(s, actions))
    decreases |actions|
  {
    hide Enough, NoPlaceholder, Enabled, Step, MayStart;
    if actions != [] {
      var a := actions[0];
      if a.Start? {
        StartFits(s, a);
        StartKeepsEnough(s, a.source, a.target);
      } else {
        EnoughStep(s, a);
      }
      NoRaceNoPlaceholder(Step(s, a), actions[1..]);
    }
  }

  lemma StartFits(s: State, a: Action)
    requires a.Start? && Enabled(s, a)
    ensures a == Start(a.source, a.target) && a.source < |s.queues|
  {
  }

  /** The smallest race: two movers of one message. */
  lemma RaceMakesPlaceholder()
    ensures var s := Step(Initial([[Some(7)], [], []]), Start(0, 1));
      && Enough(s) && NoPlaceholder(s) && !MayStart(s, 0, 2)
      && exists actions :: && IsRun(Step(s, Start(0, 2)), actions) && OnlyMoves(actions)
                           && !NoPlaceholder(After(Step(s, Start(0, 2)), actions))
  {
    var queues: seq<Queue> := [[Some(7)], [], []];
    var s := Step(Initial(queues), Start(0, 1));
    assert s.movers[..0] == [] && Demand([], 0) == 0 && Demand([], 1) == 0 && Demand([], 2) == 0;
    assert Demand(s.movers, 0) == 1 && Demand(s.movers, 1) == 0 && Demand(s.movers, 2) == 0;
    StartKeepsEnough(s, 0, 2);
    EnoughIsExact(Step(s, Start(0, 2)));
  }

  // ---------- what a target receives ----------

  /** No other mover has the target of mover m. */
  ghost predicate OwnTarget(s: State, m: nat) {
    m < |s.movers| && forall n | 0 <= n < |s.movers| && n != m :: s.movers[n].target != s.movers[m].target
  }

  /** Since the target had base put into it, it was given what the mover has taken,
      in that order, but for what is in its hand. */
  ghost predicate Delivered(s: State, m: nat, base: seq<Message>) {
    && WellFormed(s) && m < |s.movers|
    && (!s.movers[m].carrying ==> s.movers[m].hand == None)
    && s.put[s.movers[m].target] + Listed(s.movers[m].hand) == base + s.movers[m].moved
  }

  lemma DeliveredStep(s: State, a: Action, m: nat, base: seq<Message>)
    requires Delivered(s, m, base) && Enabled(s, a) && OwnTarget(Step(s, a), m)
    ensures Delivered(Step(s, a), m, base) && Step(s, a).movers[m].target == s.movers[m].target
  {
    var t := Step(s, a);
    var given := s.put[s.movers[m].target];
    match a {
      case Start(_, _) =>
      case Pop(n) =>
        if n == m {
          assert given + [] == given;
          var x := Listed(t.movers[m].hand);
          assert t.movers[m].moved == s.movers[m].moved + x;
          assert base + s.movers[m].moved + x == base + (s.movers[m].moved + x);
        }
      case Push(n) =>
        if n == m {
          assert t.put[t.movers[m].target] + [] == given + Listed(s.movers[m].hand);
        } else {
          assert t.movers[n].target != t.movers[m].target;
        }
    }
  }

  /** A mover that has the target to itself delivers what it takes in the order in
      which it takes it, which is the order of the mailbox. */
  lemma {:induction false} DeliveredInOrder(s: State, actions: seq<Action>, m: nat, base: seq<Message>)
    requires m < |s.movers| && Delivered(s, m, base) && IsRun(s, actions) && OwnTarget(After(s, actions), m)
    ensures m < |After(s, actions).movers| && Delivered(After(s, actions), m, base)
    ensures After(s, actions).movers[m].target == s.movers[m].target
    decreases |actions|
  {
    hide Delivered, Enabled, Step, OwnTarget;
    if actions != [] {
      var t := Step(s, actions[0]);
      StepKeepsMovers(s, actions[0], m);
      OwnTargetBefore(t, actions[1..], m);
      DeliveredStep(s, actions[0], m, base);
      DeliveredInOrder(t, actions[1..], m, base);
    }
  }

  lemma StepKeepsMovers(s: State, a: Action, m: nat)
    requires WellFormed(s) && Enabled(s, a)
    ensures |s.movers| <= |Step(s, a).movers|
    ensures forall n | 0 <= n < |s.movers| :: Step(s, a).movers[n].target == s.movers[n].target
  {
  }

  /** Movers are never taken away, so who shares a target once shares it for ever. */
  lemma {:induction false} OwnTargetBefore(s: State, actions: seq<Action>, m: nat)
    requires IsRun(s, actions) && m < |s.movers| && OwnTarget(After(s, actions), m)
    ensures OwnTarget(s, m)
    decreases |actions|
  {
    hide Enabled, Step, WellFormed;
    if actions != [] {
      StepKeepsMovers(s, actions[0], m);
      OwnTargetBefore(Step(s, actions[0]), actions[1..], m);
    }
  }
}
