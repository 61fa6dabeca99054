/** The chat server of src/server/server.c as interleaved atomic steps of its threads: the one that
    accepts, one per connection, and the one that broadcasts. */
module Server {
  import opened Wrappers
  import opened Sequences
  import opened Message
  import opened Framing
  import opened Session

  /** A connection, named by its thread. */
  type Id = nat

  /** Where the thread of a connection is in Server_handleClient. */
  datatype Phase = Starting | Authenticating | Greeting | Joining | Chatting | Leaving | Dropping | Gone

  /** `trace` is what the session has enqueued, `inbox` what was broadcast to its client; `failed` that it
      never got to chat. */
  datatype Conn = Conn(phase: Phase, nickname: string, trace: seq<C2HMessage>, inbox: seq<C2HMessage>, failed: bool)

  /** The broadcast thread: between messages, or on its way through the list. `got` are the clients
      the message was sent to, in order. */
  datatype Pass = Done(got: seq<Id>) | Passing(message: C2HMessage, got: seq<Id>)

  datatype State = State(
    clients: seq<Id>,
    current: Option<Id>,
    conns: map<Id, Conn>,
    admitting: bool,
    queue: seq<C2HMessage>,
    popped: seq<C2HMessage>,
    pass: Pass)

  const INITIAL: State := State([], None, map[], false, [], [], Done([]))

  datatype Step =
    | CheckLimit
    | Admit(id: Id)
    | Welcome(id: Id, sent: bool)
    | Authenticate(id: Id, record: string)
    | GiveUp(id: Id)
    | Hello(id: Id, sent: bool)
    | Join(id: Id)
    | Receive(id: Id, record: string, acks: nat -> bool)
    | Leave(id: Id)
    | Bye(id: Id)
    | Drop(id: Id)
    | Pop
    | Next

  const NEW_CONN: Conn := Conn(Starting, "", [], [], false)

  const JOINED: string := "just joined the chat"
  const LEFT: string := "just left the chat"

  predicate AllDefined(effects: seq<Effect>) {
    forall i :: 0 <= i < |effects| ==> !effects[i].Fault? && (effects[i].Push? ==> effects[i].message.Got?)
  }

  predicate Taken(s: State, nickname: string) {
    exists i :: 0 <= i < |s.clients| && s.clients[i] in s.conns && s.conns[s.clients[i]].nickname == nickname
  }

  /** The first place of `id` in the list. */
  function Place(clients: seq<Id>, id: Id): (i: nat)
    requires id in clients
    ensures i < |clients| && clients[i] == id && id !in clients[..i]
  {
    if clients[0] == id then 0 else
    var i := 1 + Place(clients[1..], id);
    assert clients[..i] == [clients[0]] + clients[1..][..i - 1];
    i
  }

  function After(clients: seq<Id>, i: nat): Option<Id> {
    if i < |clients| then Some(clients[i]) else None
  }

  /** Steps a thread can take. Those whose outcome is not defined are not there: a text with a `%` used as a
      format, a read outside of its block, a cursor on a node that is freed. */
  predicate Enabled(s: State, step: Step) {
    match step
    case CheckLimit => !s.admitting
    case Admit(id) => s.admitting && id !in s.conns
    case Welcome(id, _) => InPhase(s, id, Starting)
    case Authenticate(id, record) =>
      InPhase(s, id, Authenticating) && Whole(record) && !Get(Arrived(record)).0.Undefined?
    case GiveUp(id) => InPhase(s, id, Authenticating)
    case Hello(id, _) => InPhase(s, id, Greeting) && '%' !in s.conns[id].nickname
    case Join(id) => InPhase(s, id, Joining) && BroadcastOf(Log, s.conns[id].nickname, JOINED).Got?
    case Receive(id, record, acks) =>
      && InPhase(s, id, Chatting) && Whole(record)
      && AllDefined(Handle(Reads(Arrived(record)), s.conns[id].nickname, acks, 0).0)
    case Leave(id) => InPhase(s, id, Chatting)
    case Bye(id) => InPhase(s, id, Leaving) && BroadcastOf(Log, s.conns[id].nickname, LEFT).Got?
    case Drop(id) => InPhase(s, id, Dropping) && id in s.clients
    case Pop => s.pass.Done?
    case Next => s.pass.Passing? && (s.current.Some? ==> s.current.value in s.clients && s.current.value in s.conns)
  }

  predicate InPhase(s: State, id: Id, phase: Phase) {
    id in s.conns && s.conns[id].phase == phase
  }

  function Fail(c: Conn): Conn {
    c.(phase := Dropping, failed := true)
  }

  /** Server_authenticate's answer to what it receives: a nickname of the right form that nobody on the
      list has is taken over, and looking it up and storing it are one step. */
  function Answered(s: State, c: Conn, message: Outcome): Conn {
    match message
    case NoMessage => Fail(c)
    case Undefined => c
    case Got(m) =>
      if !m.kind.Nick? then c
      else if !ValidNickname(m.content) || Taken(s, m.content) then Fail(c)
      else c.(phase := Greeting, nickname := m.content)
  }

  /** The steps of Server_handleClient, up to the drop. */
  predicate OfSession(step: Step) {
    step.Welcome? || step.Authenticate? || step.GiveUp? || step.Hello? || step.Join? || step.Receive?
    || step.Leave? || step.Bye?
  }

  /** What a session's step enqueues. */
  function Messages(c: Conn, step: Step): seq<C2HMessage>
    requires step.Receive? ==> Whole(step.record)
  {
    match step
    case Join(_) => Defined(BroadcastOf(Log, c.nickname, JOINED))
    case Receive(_, record, acks) => Pushes(Handle(Reads(Arrived(record)), c.nickname, acks, 0).0)
    case Bye(_) => Defined(BroadcastOf(Log, c.nickname, LEFT))
    case _ => []
  }

  /** Where a session's step leaves its thread. */
  function Moved(s: State, c: Conn, step: Step): Conn
    requires step.Authenticate? || step.Receive? ==> Whole(step.record)
  {
    match step
    case Welcome(_, sent) => if sent then c.(phase := Authenticating) else Fail(c)
    case Authenticate(_, record) => Answered(s, c, Get(Arrived(record)).0)
    case GiveUp(_) => Fail(c)
    case Hello(_, sent) => if sent then c.(phase := Joining) else Fail(c)
    case Join(_) => c.(phase := Chatting)
    case Receive(_, record, acks) =>
      if Handle(Reads(Arrived(record)), c.nickname, acks, 0).1 then c.(phase := Leaving) else c
    case Leave(_) => c.(phase := Leaving)
    case Bye(_) => c.(phase := Dropping)
    case _ => c
  }

  /** The session's entry after its step, with what it enqueued added to its trace. */
  function Entry(s: State, c: Conn, step: Step): Conn
    requires step.Authenticate? || step.Receive? ==> Whole(step.record)
  {
    Moved(s, c, step).(trace := c.trace + Messages(c, step))
  }

  function Apply(s: State, step: Step, max: nat): State
    requires Enabled(s, step)
  {
    match step
    case CheckLimit => s.(admitting := |s.clients| < max)
    case Admit(id) =>
      s.(clients := s.clients + [id],
         current := if s.clients == [] then Some(id) else s.current,
         admitting := false,
         conns := s.conns[id := NEW_CONN])
    case Drop(id) =>
      var i := Place(s.clients, id);
      var clients := s.clients[..i] + s.clients[i + 1..];
      s.(clients := clients,
         current := if i == 0 then After(clients, 0) else s.current,
         conns := s.conns[id := s.conns[id].(phase := Gone)])
    case Pop =>
      if s.queue == [] then s
      else s.(queue := s.queue[1..], popped := s.popped + [s.queue[0]],
              current := if s.clients == [] then s.current else Some(s.clients[0]),
              pass := Passing(s.queue[0], []))
    case Next =>
      if s.current.None? then s.(pass := Done(s.pass.got))
      else
        var id := s.current.value;
        var s' := s.(current := After(s.clients, Place(s.clients, id) + 1));
        var c := s.conns[id];
        if c.nickname == "" then s'
        else
          s'.(conns := s.conns[id := c.(inbox := c.inbox + [s.pass.message])],
              pass := s.pass.(got := s.pass.got + [id]))
    case _ =>
      var c := s.conns[step.id];
      s.(conns := s.conns[step.id := Entry(s, c, step)],
         queue := s.queue + Messages(c, step))
  }

  /** What a session that got to chat may have enqueued: joined, then its texts. */
  predicate Opened(trace: seq<C2HMessage>, nickname: string) {
    && trace != [] && trace[0] == C2HMessage(Log, nickname, JOINED)
    && forall i :: 1 <= i < |trace| ==> trace[i].kind == Msg && trace[i].user == nickname
  }

  /** ... and left, at the end. */
  predicate Closed(trace: seq<C2HMessage>, nickname: string) {
    && trace != [] && trace[|trace| - 1] == C2HMessage(Log, nickname, LEFT)
    && Opened(trace[..|trace| - 1], nickname)
  }

  /** The shape of a session's trace, phase by phase. */
  predicate TraceShape(c: Conn) {
    match c.phase
    case Chatting => !c.failed && Opened(c.trace, c.nickname)
    case Leaving => !c.failed && Opened(c.trace, c.nickname)
    case Dropping => if c.failed then c.trace == [] else Closed(c.trace, c.nickname)
    case Gone => if c.failed then c.trace == [] else Closed(c.trace, c.nickname)
    case _ => !c.failed && c.trace == []
  }

  predicate Named(c: Conn) {
    && (c.nickname == "" || ValidNickname(c.nickname))
    && (c.phase in {Starting, Authenticating} ==> c.nickname == "")
    && (c.phase in {Greeting, Joining, Chatting, Leaving} ==> c.nickname != "")
  }

  ghost predicate ListMatchesConns(s: State) {
    && Distinct(s.clients)
    && (forall i :: 0 <= i < |s.clients| ==> s.clients[i] in s.conns && s.conns[s.clients[i]].phase != Gone)
    && (forall id :: id in s.conns && s.conns[id].phase != Gone ==> id in s.clients)
    && (s.clients == [] ==> s.current == None)
    && (s.current.Some? ==> s.current.value in s.conns)
  }

  ghost predicate Apart(s: State, a: Id, b: Id) {
    a in s.conns && b in s.conns && s.conns[a].nickname != "" ==> s.conns[a].nickname != s.conns[b].nickname
  }

  ghost predicate NicknamesApart(s: State) {
    forall i, j :: 0 <= i < j < |s.clients| ==> Apart(s, s.clients[i], s.clients[j])
  }

  ghost predicate SessionsGood(s: State) {
    forall id :: id in s.conns ==> Named(s.conns[id]) && TraceShape(s.conns[id])
  }

  ghost predicate WithinLimit(s: State, max: nat) {
    |s.clients| <= max && (s.admitting ==> |s.clients| < max)
  }

  /** The messages that `id` owns among `ms`, in order. */
  function Of(ms: seq<C2HMessage>, owners: seq<Id>, id: Id): seq<C2HMessage>
    requires |ms| == |owners|
    decreases |ms|
  {
    if ms == [] then []
    else
      var n := |ms| - 1;
      Of(ms[..n], owners[..n], id) + (if owners[n] == id then [ms[n]] else [])
  }

  /** Every message of `ms` belongs to a session, and each session owns its trace: `ms` is the traces,
      interleaved. */
  ghost predicate Interleaves(ms: seq<C2HMessage>, owners: seq<Id>, conns: map<Id, Conn>) {
    && |ms| == |owners|
    && (forall i :: 0 <= i < |owners| ==> owners[i] in conns)
    && (forall id :: id in conns ==> Of(ms, owners, id) == conns[id].trace)
  }

  /** What was popped and then what is queued are what the sessions have enqueued, interleaved. */
  ghost predicate Conserved(s: State) {
    exists owners :: Interleaves(s.popped + s.queue, owners, s.conns)
  }

  ghost predicate Invariant(s: State, max: nat) {
    ListMatchesConns(s) && NicknamesApart(s) && SessionsGood(s) && WithinLimit(s, max) && Conserved(s)
  }

  /** The state after the steps, each of which must be possible when its turn comes. */
  function Run(s: State, steps: seq<Step>, max: nat): (r: Option<State>)
    decreases |steps|
  {
    if steps == [] then Some(s)
    else if Enabled(s, steps[0]) then Run(Apply(s, steps[0], max), steps[1..], max)
    else None
  }

  // ----- the cursor of the broadcast thread

  /** The clients from the cursor on; nothing if the cursor's node is not on the list any more. */
  function Pending(s: State): Option<seq<Id>> {
    if s.current.None? then Some([])
    else if s.current.value in s.clients then Some(s.clients[Place(s.clients, s.current.value)..])
    else None
  }

  /** How many clients stand in front of the cursor. */
  function Passed(s: State): nat {
    if s.current.Some? && s.current.value in s.clients then Place(s.clients, s.current.value) else |s.clients|
  }

  /** Taking off the first client sends the cursor to the new first one, and taking off the client under the
      cursor leaves the cursor on a freed node. Neither matters at the front. */
  predicate SafeDrop(s: State, id: Id)
    requires id in s.clients
  {
    var i := Place(s.clients, id);
    if i == 0 then Passed(s) <= 1 else i != Passed(s)
  }
}
