/** The reader and executor threads of one connection, drpc_handle_client and
    drpc_client_executor: a shared event queue, a semaphore, and a flag that
    says the client is gone. Every interleaving of their steps is a run. */
module Executor {

  /** What an event asks for. An unknown type is Other. */
  datatype Kind = Ping | Disconnect | Call | MailboxRecv | MailboxSend | ServerName | Other

  /** An event from the network, or the one the reader adds when it gives up. */
  datatype Event = Received(kind: Kind, serial: nat) | GaveUp

  datatype ReaderPc = Receiving | Pushing(event: Event) | Posting | Checking
                    | PushingLast | PostingLast | Joining | Joined

  datatype ExecutorPc = Testing | Popping | Waiting | Handling(event: Event)
                      | Ending(stopping: bool) | Leaving | Done

  datatype Handled = Handled(event: Event, ok: bool)

  /** held records that the executor came back from the semaphore and has not
      popped yet, and waits how often it came back; received, pushed and handled are
      the histories. */
  datatype State = State(
    queue: seq<Event>, sem: nat, stop: bool, disconnected: bool,
    reader: ReaderPc, executor: ExecutorPc,
    held: bool, waits: nat, received: seq<Event>, pushed: seq<Event>, handled: seq<Handled>)

  datatype Action =
    | Receive(kind: Kind) | GiveUp | Push | Post | Check | PushLast | PostLast | Join
    | Test | Pop | Wait | Handle(ok: bool) | End | Leave

  function Initial(): State {
    State([], 0, false, false, Receiving, Testing, false, 0, [], [], [])
  }

  predicate Enabled(s: State, a: Action) {
    match a
    case Receive(_) => s.reader.Receiving?
    case GiveUp => s.reader.Receiving?
    case Push => s.reader.Pushing?
    case Post => s.reader.Posting?
    case Check => s.reader.Checking?
    case PushLast => s.reader.PushingLast?
    case PostLast => s.reader.PostingLast?
    case Join => s.reader.Joining? && s.executor.Done?
    case Test => s.executor.Testing?
    case Pop => s.executor.Popping?
    case Wait => s.executor.Waiting? && s.sem > 0
    case Handle(_) => s.executor.Handling?
    case End => s.executor.Ending?
    case Leave => s.executor.Leaving?
  }

  predicate IsDisconnect(e: Event) {
    e.GaveUp? || e.kind.Disconnect?
  }

  /** Whether handling e ends the executor: ok is false when the handler fails
      or the reply cannot be sent. Mailbox requests never end it. */
  predicate Stops(e: Event, ok: bool) {
    IsDisconnect(e) || e.kind.Other? || (!ok && (e.kind.Ping? || e.kind.Call? || e.kind.ServerName?))
  }

  function Step(s: State, a: Action): State
    requires Enabled(s, a)
  {
    match a
    case Receive(kind) =>
      var e := Received(kind, |s.received|);
      s.(reader := Pushing(e), received := s.received + [e])
    case GiveUp => s.(reader := Checking)
    case Push => s.(reader := Posting, queue := s.queue + [s.reader.event], pushed := s.pushed + [s.reader.event])
    case Post => s.(reader := Receiving, sem := s.sem + 1)
    case Check => s.(reader := if s.disconnected then Joining else PushingLast)
    case PushLast => s.(reader := PostingLast, queue := s.queue + [GaveUp], pushed := s.pushed + [GaveUp])
    case PostLast => s.(reader := Joining, sem := s.sem + 1)
    case Join => s.(reader := Joined)
    case Test => s.(executor := if |s.queue| > 0 || !s.stop then Popping else Leaving)
    case Pop =>
      if s.queue == [] then s.(executor := Waiting, held := false)
      else s.(executor := Handling(s.queue[0]), queue := s.queue[1..], held := false)
    case Wait => s.(executor := Testing, sem := s.sem - 1, held := true, waits := s.waits + 1)
    case Handle(ok) =>
      var e := s.executor.event;
      s.(executor := Ending(Stops(e, ok)), handled := s.handled + [Handled(e, ok)],
         disconnected := s.disconnected || IsDisconnect(e))
    case End => s.(executor := Testing, stop := s.stop || s.executor.stopping)
    case Leave => s.(executor := Done, disconnected := true)
  }

  // ---------- the invariant ----------

  function Events(handled: seq<Handled>): (events: seq<Event>)
    ensures |events| == |handled|
  {
    seq(|handled|, i requires 0 <= i < |handled| => handled[i].event)
  }

  function InHand(s: State): seq<Event> {
    if s.executor.Handling? then [s.executor.event] else []
  }

  function Tickets(s: State): nat {
    s.sem + (if s.reader.Posting? || s.reader.PostingLast? then 1 else 0) + (if s.held then 1 else 0)
  }

  /** The reader added its own disconnect event. */
  predicate LastPushed(s: State) {
    s.pushed != [] && s.pushed[|s.pushed| - 1].GaveUp?
  }

  /** What the network brought that was pushed. */
  function PushedReceived(s: State): seq<Event> {
    if LastPushed(s) then s.pushed[..|s.pushed| - 1] else s.pushed
  }

  predicate Stopping(s: State) {
    s.stop || (s.executor.Ending? && s.executor.stopping)
  }

  /** First in, first out; the reader's own event comes last. */
  ghost predicate Fifo(s: State) {
    s.pushed == Events(s.handled) + InHand(s) + s.queue && LastIsOwn(s)
  }

  ghost predicate LastIsOwn(s: State) {
    && s.received == PushedReceived(s) + (if s.reader.Pushing? then [s.reader.event] else [])
    && (forall i | 0 <= i < |s.received| :: s.received[i].Received?)
    && (LastPushed(s) ==> s.reader.PostingLast? || s.reader.Joining? || s.reader.Joined?)
    && (s.reader.PostingLast? ==> LastPushed(s))
  }

  /** Every event in the queue has a wake-up: in the semaphore, about to be
      posted, or in the executor's hand. */
  ghost predicate Covered(s: State) {
    && Tickets(s) >= |s.queue|
    && (s.held ==> s.executor.Testing? || s.executor.Popping? || s.executor.Leaving? || s.executor.Done?)
  }

  /** Every pushed event is posted once, and every wait takes one post. */
  ghost predicate Balanced(s: State) {
    s.sem + s.waits + (if s.reader.Posting? || s.reader.PostingLast? then 1 else 0) == |s.pushed|
  }

  /** The executor stops exactly for an event that stops it. */
  ghost predicate Halting(s: State) {
    && (s.executor.Waiting? ==> !s.stop)
    && (s.executor.Popping? && s.stop ==> s.queue != [])
    && (s.executor.Leaving? || s.executor.Done? ==> s.stop)
    && (s.disconnected ==> Stopping(s))
    && (Stopping(s) <==> exists i :: 0 <= i < |s.handled| && Stops(s.handled[i].event, s.handled[i].ok))
    && (s.reader.Joining? || s.reader.Joined? ==> LastPushed(s) || Stopping(s))
    && (s.reader.Joined? ==> s.executor.Done?)
  }

  ghost predicate Inv(s: State) {
    Fifo(s) && Covered(s) && Balanced(s) && Halting(s)
  }

  lemma FifoStep(s: State, a: Action)
    requires Fifo(s) && Enabled(s, a)
    ensures Fifo(Step(s, a))
  {
    hide LastIsOwn;
    LastIsOwnStep(s, a);
    var t := Step(s, a);
    match a {
      case Pop => if s.queue != [] { assert s.queue == [s.queue[0]] + s.queue[1..]; }
      case Handle(ok) => assert Events(t.handled) == Events(s.handled) + [s.executor.event];
      case _ =>
    }
  }

  lemma LastIsOwnStep(s: State, a: Action)
    requires LastIsOwn(s) && Enabled(s, a)
    ensures LastIsOwn(Step(s, a))
  {
    if a.Push? {
      assert Step(s, a).pushed[..|s.pushed|] == s.pushed;
    }
  }

  lemma HaltingStep(s: State, a: Action)
    requires Fifo(s) && Halting(s) && Enabled(s, a)
    ensures Halting(Step(s, a))
  {
    if a.Handle? {
      var h := Handled(s.executor.event, a.ok);
      assert Step(s, a).handled[|s.handled|] == h;
      assert forall i | 0 <= i < |s.handled| :: Step(s, a).handled[i] == s.handled[i];
    }
  }

  lemma InvStep(s: State, a: Action)
    requires Inv(s) && Enabled(s, a)
    ensures Inv(Step(s, a))
  {
    hide Fifo, Halting;
    FifoStep(s, a);
    HaltingStep(s, a);
  }

  // ---------- runs ----------

  ghost predicate IsRun(s: State, actions: seq<Action>)
    decreases |actions|
  {
    actions == [] || (Enabled(s, actions[0]) && IsRun(Step(s, actions[0]), actions[1..]))
  }

  ghost function After(s: State, actions: seq<Action>): State
    requires IsRun(s, actions)
    decreases |actions|
  {
    if actions == [] then s else After(Step(s, actions[0]), actions[1..])
  }

  lemma {:induction false} InvRun(s: State, actions: seq<Action>)
    requires Inv(s) && IsRun(s, actions)
    ensures Inv(After(s, actions))
    decreases |actions|
  {
    if actions != [] {
      InvStep(s, actions[0]);
      InvRun(Step(s, actions[0]), actions[1..]);
    }
  }

  /** In every run the semaphore, a post to come and a wait that just ended cover
      the queue, so the executor sleeps only on an empty queue, except while a
      post is still to come, and it has handled a prefix of what was received,
      in order, before the event the reader adds. */
  lemma Safety(actions: seq<Action>)
    requires IsRun(Initial(), actions)
    ensures var s := After(Initial(), actions);
      && s.sem + (if s.reader.Posting? || s.reader.PostingLast? then 1 else 0) + (if s.held then 1 else 0) >= |s.queue|
      && s.sem + (if s.reader.Posting? || s.reader.PostingLast? then 1 else 0) + s.waits == |s.pushed|
      && (s.executor.Waiting? && s.sem == 0 && s.queue != [] ==> s.reader.Posting? || s.reader.PostingLast?)
      && Events(s.handled) <= s.received + [GaveUp]
  {
    InvRun(Initial(), actions);
    HandledIsPrefix(After(Initial(), actions));
    hide Fifo, IsRun, After;
  }

  lemma HandledIsPrefix(s: State)
    requires Fifo(s)
    ensures Events(s.handled) <= s.received + [GaveUp]
  {
    if LastPushed(s) {
      assert s.pushed == s.received + [GaveUp];
    }
  }

  // ---------- the end of a connection ----------

  function Rank(e: ExecutorPc): nat {
    match e
    case Handling(_) => 5
    case Ending(_) => 4
    case Testing => 3
    case Popping => 2
    case Waiting => 1
    case Leaving => 1
    case Done => 0
  }

  /** Bounds the steps the executor has left once nothing is pushed any more. */
  function Measure(s: State): nat {
    6 * (|s.queue| + s.sem) + Rank(s.executor)
  }

  /** The executor is never stuck while the reader waits for it. */
  lemma NeverStuck(s: State)
    requires Inv(s) && s.reader.Joining?
    ensures exists a :: Enabled(s, a)
  {
    match s.executor {
      case Testing => assert Enabled(s, Test);
      case Popping => assert Enabled(s, Pop);
      case Waiting =>
        assert s.pushed == Events(s.handled) + s.queue;
        assert Enabled(s, Wait);
      case Handling(_) => assert Enabled(s, Handle(true));
      case Ending(_) => assert Enabled(s, End);
      case Leaving => assert Enabled(s, Leave);
      case Done => assert Enabled(s, Join);
    }
  }

  lemma MeasureFalls(s: State, a: Action)
    requires Inv(s) && s.reader.Joining? && Enabled(s, a) && a != Join
    ensures Step(s, a).reader.Joining? && Measure(Step(s, a)) < Measure(s)
  {
    hide Fifo, Covered, Halting;
  }

  lemma {:induction false} Terminates(s: State, actions: seq<Action>)
    requires Inv(s) && s.reader.Joining? && IsRun(s, actions)
    ensures |actions| <= Measure(s) + 1
    ensures (forall a :: !Enabled(After(s, actions), a)) ==> After(s, actions).reader.Joined?
    decreases |actions|
  {
    if actions == [] {
      NeverStuck(s);
    } else {
      var a := actions[0];
      InvStep(s, a);
      if a == Join {
        JoinedIsFinal(Step(s, a), actions[1..]);
      } else {
        MeasureFalls(s, a);
        Terminates(Step(s, a), actions[1..]);
      }
    }
  }

  lemma JoinedIsFinal(s: State, actions: seq<Action>)
    requires Inv(s) && s.reader.Joined? && IsRun(s, actions)
    ensures actions == []
  {
  }

  /** From the moment the reader joins, in any run, what follows is finite and,
      if it cannot go on, has joined the executor: no interleaving hangs. */
  lemma ConnectionEnds(before: seq<Action>, actions: seq<Action>)
    requires IsRun(Initial(), before) && After(Initial(), before).reader.Joining?
    requires IsRun(After(Initial(), before), actions)
    ensures var s := After(Initial(), before);
      && |actions| <= Measure(s) + 1
      && ((forall a :: !Enabled(After(s, actions), a)) ==> After(s, actions).reader.Joined?)
  {
    InvRun(Initial(), before);
    Terminates(After(Initial(), before), actions);
  }

  // ---------- what ends the executor ----------

  /** The executor goes on exactly as long as it has handled no disconnection and no
      unknown message, and every ping, call and request for the name succeeded;
      mailbox requests never end it. Until then it neither leaves nor says that the
      client is gone. */
  lemma GoesOn(actions: seq<Action>)
    requires IsRun(Initial(), actions)
    ensures var s := After(Initial(), actions);
      (!s.stop && s.executor != Ending(true)) <==>
        forall i | 0 <= i < |s.handled| ::
          var e, ok := s.handled[i].event, s.handled[i].ok;
          && e.Received? && e.kind != Disconnect && e.kind != Other
          && (e.kind == Ping || e.kind == Call || e.kind == ServerName ==> ok)
    ensures var s := After(Initial(), actions);
      !s.stop && s.executor != Ending(true) ==> !s.executor.Leaving? && !s.executor.Done? && !s.disconnected
  {
    InvRun(Initial(), actions);
    var s := After(Initial(), actions);
    assert Stopping(s) <==> s.stop || s.executor == Ending(true);
    if Stopping(s) {
      var i :| 0 <= i < |s.handled| && Stops(s.handled[i].event, s.handled[i].ok);
      var h := s.handled[i];
    } else {
      forall i | 0 <= i < |s.handled| ensures !Stops(s.handled[i].event, s.handled[i].ok) {
      }
    }
  }

  /** After each event the executor tests anew, and whether it stops depends on the
      event and its success alone, kind by kind. */
  lemma OneEvent(actions: seq<Action>, ok: bool)
    requires IsRun(Initial(), actions) && After(Initial(), actions).executor.Handling?
    ensures var s := After(Initial(), actions);
      var e, t := s.executor.event, Step(Step(s, Handle(ok)), End);
      && t.executor.Testing? && t.handled == s.handled + [Handled(e, ok)]
      && (e == GaveUp ==> t.stop && t.disconnected)
      && (e.Received? && e.kind == Disconnect ==> t.stop && t.disconnected)
      && (e.Received? && e.kind == Other ==> t.stop && t.disconnected == s.disconnected)
      && (e.Received? && (e.kind == Ping || e.kind == Call || e.kind == ServerName) ==>
            t.stop == (s.stop || !ok) && t.disconnected == s.disconnected)
      && (e.Received? && (e.kind == MailboxRecv || e.kind == MailboxSend) ==>
            t.stop == s.stop && t.disconnected == s.disconnected)
  {
  }

  /** The executor leaves only when it has been told to stop and has handled everything
      that was pushed until then. */
  lemma LeavesNothing(actions: seq<Action>)
    requires IsRun(Initial(), actions) && After(Initial(), actions).executor.Testing?
    ensures var s := After(Initial(), actions);
      var t := Step(s, Test);
      && (t.executor.Leaving? <==> s.stop && s.queue == [])
      && (t.executor.Leaving? ==> Events(t.handled) == t.pushed)
      && (!t.executor.Leaving? ==> t.executor.Popping?)
  {
    InvRun(Initial(), actions);
    hide Covered, Balanced, Halting;
  }

  /** A connection in which no received event asked to stop or failed has had every
      received event handled, in order, when the reader has joined. */
  lemma AllHandled(actions: seq<Action>)
    requires IsRun(Initial(), actions) && After(Initial(), actions).reader.Joined?
    requires var s := After(Initial(), actions);
      forall i | 0 <= i < |s.handled| && s.handled[i].event.Received? ::
        var e, ok := s.handled[i].event, s.handled[i].ok;
        && e.kind != Disconnect && e.kind != Other && (e.kind == Ping || e.kind == Call || e.kind == ServerName ==> ok)
    ensures var s := After(Initial(), actions);
      Events(s.handled) == s.received + [GaveUp] && s.queue == []
  {
    InvRun(Initial(), actions);
    OwnEventIsLast(After(Initial(), actions));
  }

  lemma OwnEventIsLast(s: State)
    requires Inv(s) && s.reader.Joined?
    requires forall i | 0 <= i < |s.handled| && s.handled[i].event.Received? ::
      var e, ok := s.handled[i].event, s.handled[i].ok;
      && e.kind != Disconnect && e.kind != Other && (e.kind == Ping || e.kind == Call || e.kind == ServerName ==> ok)
    ensures Events(s.handled) == s.received + [GaveUp] && s.queue == []
  {
    assert forall k | 0 <= k < |s.received| :: s.pushed[k] == s.received[k];
    var i :| 0 <= i < |s.handled| && Stops(s.handled[i].event, s.handled[i].ok);
    assert s.handled[i].event == GaveUp;
    assert s.pushed[i] == Events(s.handled)[i] == GaveUp;
  }
}
