/** Requests and replies of one client: the ping thread and any number of calling
    threads share the connection under one mutex, and the server answers from its
    event queue. On the local transport a send and a receive are two steps each, on
    a queue and a semaphore; on TCP they are one step each, on a stream that keeps
    messages whole and in order. No receive times out and nobody disconnects
    meanwhile. */
module Pairing {
  import opened Wrappers

  datatype Kind = Ping | Call | MailboxDeliver | MailboxFetch | ServerName

  datatype Request = Request(thread: nat, serial: nat, kind: Kind)

  datatype ReplyType = Pong | Return | NotFound | Bad | Ok | Eperm | Name

  datatype Reply = Reply(request: Request, kind: ReplyType)

  /** The reply types the server may send to a request. */
  predicate Answers(kind: Kind, reply: ReplyType) {
    match kind
    case Ping => reply.Pong?
    case Call => reply.Return? || reply.NotFound? || reply.Bad? || reply.Eperm?
    case MailboxDeliver => reply.NotFound? || reply.Bad? || reply.Ok?
    case MailboxFetch => reply.NotFound? || reply.Bad? || reply.Ok?
    case ServerName => reply.Name?
  }

  datatype Transport = Local | Tcp

  /** One direction of the transport: the messages under way, and on the local
      transport a counting semaphore. */
  datatype Channel<T> = Channel(queue: seq<T>, sem: nat)

  /** Where a client thread is. It holds the mutex from Locked to Answered. */
  datatype ThreadPc =
    | Idle
    | Locked(request: Request)
    | Pushed(request: Request)
    | Sent(request: Request)
    | Woken(request: Request)
    | Answered(request: Request, reply: Reply)
    | Released(request: Request, reply: Reply)
    | Failed

  datatype ReaderPc = Listening | Awake | Carrying(request: Request) | Broken

  datatype ServerPc = Ready | Working(request: Request) | Posting | Stopped

  datatype State = State(
    transport: Transport, threads: seq<ThreadPc>, owner: Option<nat>, nextSerial: nat,
    requests: Channel<Request>, replies: Channel<Reply>,
    reader: ReaderPc, events: seq<Request>, server: ServerPc)

  datatype Action =
    | Lock(t: nat, kind: Kind) | SendPush(t: nat) | SendPost(t: nat) | SendWhole(t: nat)
    | ReceiveWait(t: nat) | ReceivePop(t: nat) | ReceiveWhole(t: nat) | Unlock(t: nat) | Finish(t: nat)
    | ReaderWait | ReaderPop | ReaderWhole | ReaderForward
    | ServerTake | ServerReply(reply: ReplyType) | ServerPost | ServerStop

  function Initial(transport: Transport, n: nat): State {
    State(transport, seq(n, i => Idle), None, 0, Channel([], 0), Channel([], 0), Listening, [], Ready)
  }

  predicate Enabled(s: State, a: Action) {
    match a
    case Lock(t, _) => t < |s.threads| && s.threads[t].Idle? && s.owner == None
    case SendPush(t) => s.transport.Local? && t < |s.threads| && s.threads[t].Locked?
    case SendPost(t) => t < |s.threads| && s.threads[t].Pushed?
    case SendWhole(t) => s.transport.Tcp? && t < |s.threads| && s.threads[t].Locked?
    case ReceiveWait(t) => s.transport.Local? && t < |s.threads| && s.threads[t].Sent? && s.replies.sem > 0
    case ReceivePop(t) => t < |s.threads| && s.threads[t].Woken?
    case ReceiveWhole(t) => s.transport.Tcp? && t < |s.threads| && s.threads[t].Sent? && s.replies.queue != []
    case Unlock(t) => t < |s.threads| && s.threads[t].Answered?
    case Finish(t) => t < |s.threads| && s.threads[t].Released?
    case ReaderWait => s.transport.Local? && s.reader.Listening? && s.requests.sem > 0
    case ReaderPop => s.reader.Awake?
    case ReaderWhole => s.transport.Tcp? && s.reader.Listening? && s.requests.queue != []
    case ReaderForward => s.reader.Carrying?
    case ServerTake => s.server.Ready? && s.events != []
    case ServerReply(reply) => s.server.Working? && Answers(s.server.request.kind, reply)
    case ServerPost => s.server.Posting?
    case ServerStop => s.server.Ready?
  }

  function Push<T>(c: Channel<T>, x: T): Channel<T> {
    c.(queue := c.queue + [x])
  }

  function Post<T>(c: Channel<T>): Channel<T> {
    c.(sem := c.sem + 1)
  }

  function Wait<T>(c: Channel<T>): Channel<T>
    requires c.sem > 0
  {
    c.(sem := c.sem - 1)
  }

  function Rest<T>(c: Channel<T>): Channel<T>
    requires c.queue != []
  {
    c.(queue := c.queue[1..])
  }

  /** A pop that finds the queue empty makes the receive fail. */
  function Step(s: State, a: Action): State
    requires Enabled(s, a)
  {
    match a
    case Lock(t, kind) =>
      s.(threads := s.threads[t := Locked(Request(t, s.nextSerial, kind))],
         owner := Some(t), nextSerial := s.nextSerial + 1)
    case SendPush(t) =>
      var r := s.threads[t].request;
      s.(threads := s.threads[t := Pushed(r)], requests := Push(s.requests, r))
    case SendPost(t) =>
      s.(threads := s.threads[t := Sent(s.threads[t].request)], requests := Post(s.requests))
    case SendWhole(t) =>
      var r := s.threads[t].request;
      s.(threads := s.threads[t := Sent(r)], requests := Push(s.requests, r))
    case ReceiveWait(t) =>
      s.(threads := s.threads[t := Woken(s.threads[t].request)], replies := Wait(s.replies))
    case ReceivePop(t) =>
      if s.replies.queue == [] then s.(threads := s.threads[t := Failed])
      else s.(threads := s.threads[t := Answered(s.threads[t].request, s.replies.queue[0])], replies := Rest(s.replies))
    case ReceiveWhole(t) =>
      s.(threads := s.threads[t := Answered(s.threads[t].request, s.replies.queue[0])], replies := Rest(s.replies))
    case Unlock(t) =>
      s.(threads := s.threads[t := Released(s.threads[t].request, s.threads[t].reply)], owner := None)
    case Finish(t) => s.(threads := s.threads[t := Idle])
    case ReaderWait => s.(reader := Awake, requests := Wait(s.requests))
    case ReaderPop =>
      if s.requests.queue == [] then s.(reader := Broken)
      else s.(reader := Carrying(s.requests.queue[0]), requests := Rest(s.requests))
    case ReaderWhole => s.(reader := Carrying(s.requests.queue[0]), requests := Rest(s.requests))
    case ReaderForward => s.(reader := Listening, events := s.events + [s.reader.request])
    case ServerTake => s.(server := Working(s.events[0]), events := s.events[1..])
    case ServerReply(reply) =>
      s.(server := if s.transport.Local? then Posting else Ready,
         replies := Push(s.replies, Reply(s.server.request, reply)))
    case ServerPost => s.(server := Ready, replies := Post(s.replies))
    case ServerStop => s.(server := Stopped)
  }

  // ---------- the invariant ----------

  predicate Holding(pc: ThreadPc) {
    pc.Locked? || pc.Pushed? || pc.Sent? || pc.Woken? || pc.Answered?
  }

  /** What the mutex holder is doing; Idle when there is none. */
  function Holder(s: State): ThreadPc {
    if s.owner.Some? && s.owner.value < |s.threads| then s.threads[s.owner.value] else Idle
  }

  function One(b: bool): nat { if b then 1 else 0 }

  /** Requests and replies under way. */
  function InFlight(s: State): nat {
    |s.requests.queue| + One(s.reader.Carrying?) + |s.events| + One(s.server.Working?) + |s.replies.queue|
  }

  /** Only the holder of the mutex is between locking and unlocking. */
  ghost predicate Exclusive(s: State) {
    && (forall t | 0 <= t < |s.threads| :: Holding(s.threads[t]) <==> s.owner == Some(t))
    && (s.owner.Some? ==> s.owner.value < |s.threads|)
    && (forall t | 0 <= t < |s.threads| :: !s.threads[t].Failed?)
  }

  /** A semaphore counts exactly the messages nobody was woken for; without one,
      nobody is between a message and its signal. */
  ghost predicate Counted(s: State) {
    && !s.reader.Broken?
    && match s.transport
       case Local =>
         && s.requests.sem + One(s.reader.Awake?) + One(Holder(s).Pushed?) == |s.requests.queue|
         && s.replies.sem + One(s.server.Posting?) + One(Holder(s).Woken?) == |s.replies.queue|
       case Tcp => !s.reader.Awake? && !Holder(s).Pushed? && !s.server.Posting? && !Holder(s).Woken?
  }

  /** At most one message is under way. */
  ghost predicate Single(s: State) {
    var h := Holder(s);
    InFlight(s) == One(h.Pushed? || h.Sent? || h.Woken?)
  }

  /** Every message under way belongs to the holder of the mutex. */
  ghost predicate Owned(s: State) {
    var h := Holder(s);
    h.Pushed? || h.Sent? || h.Woken? ==>
      && (forall i | 0 <= i < |s.requests.queue| :: s.requests.queue[i] == h.request)
      && (s.reader.Carrying? ==> s.reader.request == h.request)
      && (forall i | 0 <= i < |s.events| :: s.events[i] == h.request)
      && (s.server.Working? ==> s.server.request == h.request)
      && (forall i | 0 <= i < |s.replies.queue| ::
            s.replies.queue[i].request == h.request && Answers(h.request.kind, s.replies.queue[i].kind))
  }

  /** Whoever has a reply has the reply to its own request. */
  ghost predicate Replied(s: State) {
    forall t | 0 <= t < |s.threads| && (s.threads[t].Answered? || s.threads[t].Released?) ::
      s.threads[t].reply.request == s.threads[t].request && Answers(s.threads[t].request.kind, s.threads[t].reply.kind)
  }

  ghost predicate Numbered(s: State) {
    forall t | 0 <= t < |s.threads| && HasRequest(s.threads[t]) ::
      s.threads[t].request.thread == t && s.threads[t].request.serial < s.nextSerial
  }

  ghost predicate Distinct(s: State) {
    forall t, u | 0 <= t < u < |s.threads| && HasRequest(s.threads[t]) && HasRequest(s.threads[u]) ::
      s.threads[t].request.serial != s.threads[u].request.serial
  }

  ghost predicate Matched(s: State) {
    Replied(s) && Numbered(s) && Distinct(s)
  }

  predicate HasRequest(pc: ThreadPc) {
    !pc.Idle? && !pc.Failed?
  }

  ghost predicate Inv(s: State) {
    Exclusive(s) && Counted(s) && Single(s) && Owned(s) && Matched(s)
  }

  lemma ExclusiveStep(s: State, a: Action)
    requires Exclusive(s) && Enabled(s, a) && (a.ReceivePop? ==> s.replies.queue != [])
    ensures Exclusive(Step(s, a))
  {
  }

  lemma CountedStep(s: State, a: Action)
    requires Exclusive(s) && Counted(s) && Enabled(s, a)
    ensures Counted(Step(s, a))
  {
  }

  lemma SingleStep(s: State, a: Action)
    requires Exclusive(s) && Counted(s) && Single(s) && Enabled(s, a)
    ensures Single(Step(s, a))
  {
  }

  lemma OwnedStep(s: State, a: Action)
    requires Exclusive(s) && Counted(s) && Single(s) && Owned(s) && Enabled(s, a)
    ensures Owned(Step(s, a))
  {
  }

  lemma RepliedStep(s: State, a: Action)
    requires Exclusive(s) && Owned(s) && Replied(s) && Enabled(s, a)
    ensures Replied(Step(s, a))
  {
  }

  lemma NumberedStep(s: State, a: Action)
    requires Numbered(s) && Enabled(s, a)
    ensures Numbered(Step(s, a))
  {
  }

  lemma DistinctStep(s: State, a: Action)
    requires Numbered(s) && Distinct(s) && Enabled(s, a)
    ensures Distinct(Step(s, a))
  {
  }

  lemma InvStep(s: State, a: Action)
    requires Inv(s) && Enabled(s, a)
    ensures Inv(Step(s, a))
  {
    hide Counted, Single, Owned, Replied, Numbered, Distinct;
    WokenHasMessage(s);
    ExclusiveStep(s, a);
    CountedStep(s, a);
    SingleStep(s, a);
    OwnedStep(s, a);
    RepliedStep(s, a);
    NumberedStep(s, a);
    DistinctStep(s, a);
  }

  /** A successful semaphore wait always yields a message, on either side. */
  lemma WokenHasMessage(s: State)
    requires Inv(s)
    ensures forall t | 0 <= t < |s.threads| && s.threads[t].Woken? :: s.replies.queue != []
    ensures s.reader.Awake? ==> s.requests.queue != []
  {
  }

  // ---------- runs ----------

  ghost predicate IsRun(s: State, actions: seq<Action>)
    decreases |actions|
  {
    actions == [] || (Enabled(s, actions[0]) && IsRun(Step(s, actions[0]), actions[1..]))
  }

  ghost function After(s: State, actions: seq<Action>): State
    requires IsRun(s, actions)
    decreases |actions|
  {
    if actions == [] then s else After(Step(s, actions[0]), actions[1..])
  }

  lemma {:induction false} InvRun(s: State, actions: seq<Action>)
    requires Inv(s) && IsRun(s, actions)
    ensures Inv(After(s, actions))
    decreases |actions|
  {
    hide Inv, Enabled, Step;
    if actions != [] {
      InvStep(s, actions[0]);
      InvRun(Step(s, actions[0]), actions[1..]);
    }
  }

  /** In every interleaving of any number of client threads, on either transport, a
      thread that has a reply has the one to its own request, of a type its request
      can get; at most one message is under way; and no thread ever finds the queue
      empty after its semaphore wait succeeded. */
  lemma Pairing(transport: Transport, n: nat, actions: seq<Action>)
    requires IsRun(Initial(transport, n), actions)
    ensures var s := After(Initial(transport, n), actions);
      && InFlight(s) <= 1
      && (forall t | 0 <= t < |s.threads| && (s.threads[t].Answered? || s.threads[t].Released?) ::
            s.threads[t].reply.request == s.threads[t].request && s.threads[t].request.thread == t
            && Answers(s.threads[t].request.kind, s.threads[t].reply.kind))
      && (forall t | 0 <= t < |s.threads| && (s.threads[t].Answered? || s.threads[t].Released?) ::
            var kind, reply := s.threads[t].request.kind, s.threads[t].reply.kind;
            && (reply == Pong <==> kind == Ping) && (reply == Name <==> kind == ServerName)
            && (reply == Return || reply == Eperm ==> kind == Call)
            && (reply == Ok ==> kind == MailboxDeliver || kind == MailboxFetch))
      && (forall t | 0 <= t < |s.threads| :: !s.threads[t].Failed?)
      && !s.reader.Broken?
  {
    InvRun(Initial(transport, n), actions);
  }

  // ---------- the way of a request ----------

  /** The thread that holds the mutex has sent its request and has no reply yet. */
  predicate Waiting(s: State) {
    Holder(s).Sent? || Holder(s).Woken?
  }

  /** The steps that bring a request to the server and the reply back. */
  predicate Carries(a: Action) {
    || a.ReaderWait? || a.ReaderPop? || a.ReaderWhole? || a.ReaderForward?
    || a.ServerTake? || a.ServerReply? || a.ServerPost?
    || a.ReceiveWait? || a.ReceivePop? || a.ReceiveWhole?
  }

  /** How many of these steps are still to come. */
  function Way(s: State): nat {
    if |s.requests.queue| > 0 then if s.reader.Awake? then 7 else 8
    else if s.reader.Carrying? then 6
    else if |s.events| > 0 then 5
    else if s.server.Working? then 4
    else if s.server.Posting? then 3
    else if Holder(s).Woken? then 1
    else 2
  }

  /** Each of these steps shortens the way of the holder's request, and no other
      step prolongs it, until the holder is answered. */
  lemma WayShortens(s: State, a: Action)
    requires Inv(s) && Waiting(s) && Enabled(s, a)
    ensures var t := Step(s, a);
      && t.owner == s.owner
      && (Holder(t).Answered? || (Waiting(t) && Way(t) + One(Carries(a)) <= Way(s)))
  {
    hide Replied, Numbered, Distinct;
  }

  /** One of them can be taken, unless the server stopped before the request. */
  lemma WayGoesOn(s: State)
    requires Inv(s) && Waiting(s)
    ensures (exists a :: Enabled(s, a) && Carries(a)) <==> !(s.server.Stopped? && s.events != [])
  {
    hide Replied, Numbered, Distinct;
    if !(s.server.Stopped? && s.events != []) {
      var a := NextCarry(s);
    }
  }

  lemma NextCarry(s: State) returns (a: Action)
    requires Inv(s) && Waiting(s) && !(s.server.Stopped? && s.events != [])
    ensures Enabled(s, a) && Carries(a)
  {
    hide Replied, Numbered, Distinct;
    var t := s.owner.value;
    if |s.requests.queue| > 0 {
      a := if s.reader.Awake? then ReaderPop else if s.transport.Local? then ReaderWait else ReaderWhole;
    } else if s.reader.Carrying? {
      a := ReaderForward;
    } else if |s.events| > 0 {
      a := ServerTake;
    } else if s.server.Working? {
      a := ServerReply(match s.server.request.kind
        case Ping => Pong
        case Call => Bad
        case ServerName => Name
        case _ => Ok);
    } else if s.server.Posting? {
      a := ServerPost;
    } else {
      a := if Holder(s).Woken? then ReceivePop(t) else if s.transport.Local? then ReceiveWait(t) else ReceiveWhole(t);
    }
  }

  function Carried(actions: seq<Action>): nat {
    if actions == [] then 0 else One(Carries(actions[0])) + Carried(actions[1..])
  }

  /** In some state of the run thread t has its reply and still holds the mutex. */
  ghost predicate EverAnswered(s: State, actions: seq<Action>, t: nat)
    requires IsRun(s, actions)
    decreases |actions|
  {
    (t < |s.threads| && s.threads[t].Answered?)
    || (actions != [] && EverAnswered(Step(s, actions[0]), actions[1..], t))
  }

  /** A waiting thread gets its reply within eight of the steps that carry it. In a
      run where it has not got it yet fewer were taken, and another can be, unless
      the server stopped before it came to the request. */
  lemma {:induction false} ReplyComes(s: State, actions: seq<Action>)
    requires Inv(s) && Waiting(s) && IsRun(s, actions)
    ensures !EverAnswered(s, actions, s.owner.value) ==>
      var t := After(s, actions);
      && Carried(actions) + Way(t) <= Way(s) <= 8
      && Waiting(t) && t.owner == s.owner
      && ((exists a :: Enabled(t, a) && Carries(a)) <==> !(t.server.Stopped? && t.events != []))
    decreases |actions|
  {
    hide Inv, Enabled, Step, Way, Waiting;
    WayIsShort(s);
    if actions == [] {
      WayGoesOn(s);
    } else {
      InvStep(s, actions[0]);
      WayShortens(s, actions[0]);
      var t := Step(s, actions[0]);
      AnsweredHolder(s, t);
      if Waiting(t) {
        ReplyComes(t, actions[1..]);
      } else {
        assert EverAnswered(t, actions[1..], s.owner.value);
      }
    }
  }

  lemma WayIsShort(s: State)
    ensures Way(s) <= 8
  {
  }

  lemma AnsweredHolder(s: State, t: State)
    requires Waiting(s) && t.owner == s.owner
    ensures s.owner.Some?
    ensures Holder(t).Answered? ==> s.owner.value < |t.threads| && t.threads[s.owner.value].Answered?
  {
  }
}
