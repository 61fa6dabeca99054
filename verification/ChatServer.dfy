/** The server's globals as its threads change them, src/server/server.c: the client list, the message queue
    and the receive buffers, on the heap. Each method is what one thread does under the lock or on its own,
    and is proved to be one step of the server. Valid says that the heap holds the state that the steps have
    led to, and that this state has every invariant of a run. */
module ChatServer {
  import opened Wrappers
  import opened Sequences
  import opened Message
  import opened Framing
  import opened MessageCodec
  import opened Session
  import opened Server
  import opened ServerProofs
  import CString
  import Clients
  import Handshake
  import LinkedQueue

  // ----- how the heap holds the state

  /** The list's entries are the clients of the state, under their nicknames. */
  ghost predicate Listed(entries: seq<Clients.Client>, s: State) {
    && Clients.Ids(entries) == s.clients
    && forall i :: 0 <= i < |entries| ==>
      s.clients[i] in s.conns && entries[i].nickname == s.conns[s.clients[i]].nickname
  }

  ghost predicate GoodBuffer(b: MessageBuffer)
    reads b, b.data
  {
    Framing.Valid(b.State()) && LastByteIsNul(b.State())
  }

  ghost predicate Separate(buffers: map<Id, MessageBuffer>) {
    forall i, j :: i in buffers && j in buffers && i != j ==>
      buffers[i] != buffers[j] && buffers[i].data != buffers[j].data
  }

  /** Every client has a buffer of its own, ready for the next receive. */
  ghost predicate BuffersHold(buffers: map<Id, MessageBuffer>, s: State)
    reads buffers.Values, set id <- buffers :: buffers[id].data
  {
    && Separate(buffers) && (forall id <- buffers :: GoodBuffer(buffers[id]))
    && forall id <- s.conns :: id in buffers
  }

  lemma {:induction false} BuffersMore(buffers: map<Id, MessageBuffer>, s: State, s': State, id: Id, b: MessageBuffer)
    requires BuffersHold(buffers, s) && b.State() == EMPTY
    requires forall i :: i in s'.conns ==> i in s.conns || i == id
    requires forall i <- buffers :: buffers[i] != b && buffers[i].data != b.data
    ensures BuffersHold(buffers[id := b], s')
  {
    assert GoodBuffer(b);
    hide GoodBuffer;
  }

  /** The same clients on the list, and the same connections under the same nicknames. */
  ghost predicate SameNames(s: State, s': State) {
    && s'.clients == s.clients && s'.conns.Keys == s.conns.Keys
    && forall i <- s.conns :: s'.conns[i].nickname == s.conns[i].nickname
  }

  /** `s'` is `s` but for the nickname of `id`, and for what the heap does not show. */
  ghost predicate Renames(s: State, s': State, id: Id, nickname: string) {
    && s'.clients == s.clients && s'.current == s.current && s'.queue == s.queue && s'.popped == s.popped
    && s'.conns.Keys == s.conns.Keys && id in s.conns && s'.conns[id].nickname == nickname
    && forall i <- s.conns :: i != id ==> s'.conns[i].nickname == s.conns[i].nickname
  }

  /** The nickname of a client after its record: a valid one that nobody listed has is taken over. */
  function Answer(s: State, c: Conn, o: Outcome): string {
    if o.Got? && o.message.kind.Nick? && ValidNickname(o.message.content) && !Taken(s, o.message.content)
    then o.message.content else c.nickname
  }

  function WelcomeRecord(): string {
    Wire(C2HMessage(Ok, "", Handshake.WELCOME))
  }

  function HelloRecord(nickname: string): string {
    Wire(C2HMessage(Ok, "", Handshake.HelloText(nickname)))
  }

  function NicknameOf(s: State, id: Id): string {
    if id in s.conns then s.conns[id].nickname else ""
  }

  /** The state after a send that greets the client: waiting changes nothing, and success is more than 0. */
  function Greeted(s: State, id: Id, result: Option<int>, max: nat): State {
    var sent := result.Some? && result.value > 0;
    if result.None? then s
    else if Enabled(s, Step.Welcome(id, sent)) then Apply(s, Step.Welcome(id, sent), max)
    else if Enabled(s, Step.Hello(id, sent)) then Apply(s, Step.Hello(id, sent), max)
    else s
  }

  class Globals {
    const maxConnections: nat
    const clients: Clients.ClientList
    const messages: LinkedQueue.CQueue<C2HMessage>
    var buffers: map<Id, MessageBuffer>
    ghost var state: State
    ghost var Repr: set<object>

    ghost predicate Owned()
      reads this`Repr, this`buffers, clients`Repr, messages.queue
    {
      && clients in Repr && clients.list in Repr && (forall n <- clients.Repr :: n in Repr)
      && messages in Repr && messages.queue in Repr && (forall n <- messages.queue.nodes :: n in Repr)
      && (forall id <- buffers :: buffers[id] in Repr && buffers[id].data in Repr)
    }

    ghost predicate ListHolds(s: State)
      reads clients, clients.list, clients.Repr
    {
      clients.Valid() && Listed(clients.Entries(), s) && clients.cursor == s.current
    }

    ghost predicate QueueHolds(queue: seq<C2HMessage>, popped: seq<C2HMessage>)
      reads messages, messages.queue, messages.queue.nodes
    {
      messages.Valid() && messages.history.pending == queue && messages.history.popped == popped
    }

    /** The heap holds the state `s`. */
    ghost predicate Holds(s: State)
      reads this`Repr, this`buffers, Repr
    {
      && clients in Repr && messages in Repr && messages.queue in Repr
      && Owned() && ListHolds(s) && QueueHolds(s.queue, s.popped) && BuffersHold(buffers, s)
    }

    lemma {:induction false} OwnsList()
      requires Owned()
      ensures clients in Repr && clients.list in Repr && forall n <- clients.Repr :: n in Repr
    {
    }

    lemma {:induction false} OwnsQueue()
      requires Owned()
      ensures messages in Repr && messages.queue in Repr && forall n <- messages.queue.nodes :: n in Repr
    {
    }

    lemma {:induction false} OwnsBuffer(id: Id)
      requires Owned() && id in buffers
      ensures buffers[id] in Repr && buffers[id].data in Repr
    {
    }

    lemma {:induction false} Parts(s: State)
      requires Holds(s)
      ensures Owned() && ListHolds(s) && QueueHolds(s.queue, s.popped) && BuffersHold(buffers, s)
    {
    }

    lemma {:induction false} Together(s: State)
      requires Owned() && ListHolds(s) && QueueHolds(s.queue, s.popped) && BuffersHold(buffers, s)
      ensures Holds(s)
    {
    }

    ghost predicate Valid()
      reads this, Repr
    {
      this !in Repr && Holds(state) && Invariant(state, maxConnections)
    }

    constructor (maxConnections: nat, clientSize: nat)
      ensures Valid() && fresh(Repr) && state == INITIAL && this.maxConnections == maxConnections
    {
      hide Invariant, Holds;
      this.maxConnections := maxConnections;
      clients := new Clients.ClientList(clientSize);
      messages := new LinkedQueue.CQueue();
      buffers := map[];
      state := INITIAL;
      new;
      Repr := {clients, clients.list, messages, messages.queue};
      InitiallyInvariant(maxConnections);
      HoldsNothing();
    }

    lemma {:induction false} HoldsNothing()
      requires clients.Valid() && clients.Entries() == [] && clients.cursor == None && clients.Repr == {}
      requires messages.Valid() && messages.queue.nodes == [] && messages.history == LinkedQueue.History([], [], [])
      requires Repr == {clients, clients.list, messages, messages.queue} && buffers == map[]
      ensures Holds(INITIAL)
    {
      hide Clients.ClientList.Valid, Clients.ClientList.Entries;
    }

    /** What the heap does not show: phases, traces, inboxes, and where the other threads are. */
    lemma {:induction false} HoldsAside(s: State, s': State)
      requires Holds(s) && SameNames(s, s') && s'.current == s.current
      requires s'.queue == s.queue && s'.popped == s.popped
      ensures Holds(s')
    {
      hide Clients.ClientList.Valid, Clients.ClientList.Entries, GoodBuffer, Separate, Clients.Ids;
    }

    lemma {:induction false} LengthHolds(s: State)
      requires Holds(s)
      ensures clients.Valid() && clients.list.length == |s.clients|
    {
      clients.Facts();
    }

    // ----- the accepting thread

    /** The test in front of the append; the answer is as good as the list is at this moment. */
    method LimitCheck() returns (room: bool)
      requires Valid() && Enabled(state, CheckLimit)
      modifies this, Repr
      ensures Valid() && fresh(Repr - old(Repr)) && state == Apply(old(state), CheckLimit, maxConnections)
      ensures room <==> |state.clients| < maxConnections
      ensures room <==> state.admitting
    {
      hide Invariant, Holds;
      LengthHolds(state);
      room := clients.list.length < maxConnections;
      StepKeepsInvariant(state, CheckLimit, maxConnections);
      HoldsAside(state, Apply(state, CheckLimit, maxConnections));
      state := Apply(state, CheckLimit, maxConnections);
    }

    lemma {:induction false} ListedMore(entries: seq<Clients.Client>, s: State, s': State, id: Id)
      requires Listed(entries, s) && id !in s.conns
      requires s'.clients == s.clients + [id] && s'.conns == s.conns[id := NEW_CONN]
      ensures Listed(entries + [Clients.Client(id, "")], s') && (entries == [] <==> s.clients == [])
    {
    }

    method AppendToList(id: Id, ghost s: State, ghost s': State)
      requires ListHolds(s) && id !in Clients.Ids(clients.Entries()) && clients.cursor != Some(id) && id !in s.conns
      requires s'.clients == s.clients + [id] && s'.conns == s.conns[id := NEW_CONN]
      requires s'.current == if s.clients == [] then Some(id) else s.current
      modifies clients, clients.list, clients.Repr
      ensures ListHolds(s') && fresh(clients.Repr - old(clients.Repr))
      ensures clients.Entries() == old(clients.Entries()) + [Clients.Client(id, "")]
    {
      hide Clients.ClientList.Valid, Clients.ClientList.Entries, Listed;
      ListedMore(clients.Entries(), s, s', id);
      clients.Add(id);
    }

    method OwnEntry(id: Id, ghost s: State, ghost s': State)
      requires this !in Repr && Owned() && ListHolds(s) && BuffersHold(buffers, s)
      requires id !in Clients.Ids(clients.Entries()) && clients.cursor != Some(id) && id !in s.conns
      requires s'.clients == s.clients + [id] && s'.conns == s.conns[id := NEW_CONN]
      requires s'.current == if s.clients == [] then Some(id) else s.current
      modifies this`Repr, clients, clients.list, clients.Repr
      ensures this !in Repr && fresh(Repr - old(Repr)) && old(Repr) <= Repr
      ensures Owned() && ListHolds(s') && BuffersHold(buffers, s)
      ensures clients.Entries() == old(clients.Entries()) + [Clients.Client(id, "")]
    {
      hide Clients.ClientList.Entries, ListHolds, BuffersHold;
      AppendToList(id, s, s');
      Repr := Repr + clients.Repr;
    }

    method OwnBuffer(id: Id, ghost s: State, ghost s': State)
      requires this !in Repr && Owned() && BuffersHold(buffers, s)
      requires forall i :: i in s'.conns ==> i in s.conns || i == id
      modifies this`buffers, this`Repr
      ensures this !in Repr && fresh(Repr - old(Repr)) && old(Repr) <= Repr
      ensures Owned() && BuffersHold(buffers, s')
    {
      hide BuffersHold;
      var buffer := new MessageBuffer();
      BuffersMore(buffers, s, s', id, buffer);
      buffers := buffers[id := buffer];
      Repr := Repr + {buffer, buffer.data};
    }

    /** The client is copied into the list with an empty buffer, and its thread gets the copy. */
    method Enroll(id: Id, ghost s: State, ghost s': State)
      requires this !in Repr && Holds(s) && id !in Clients.Ids(clients.Entries()) && clients.cursor != Some(id)
      requires id !in s.conns && s'.clients == s.clients + [id] && s'.conns == s.conns[id := NEW_CONN]
      requires s'.current == if s.clients == [] then Some(id) else s.current
      requires s'.queue == s.queue && s'.popped == s.popped
      modifies this`buffers, this`Repr, Repr
      ensures this !in Repr && Holds(s') && fresh(Repr - old(Repr))
      ensures clients.Entries() == old(clients.Entries()) + [Clients.Client(id, "")]
    {
      hide Clients.ClientList.Entries, Holds, ListHolds, QueueHolds, BuffersHold;
      Parts(s);
      OwnEntry(id, s, s');
      OwnBuffer(id, s, s');
      Together(s');
    }

    method AppendClient(id: Id)
      requires Valid() && Enabled(state, Admit(id))
      modifies this, Repr
      ensures Valid() && fresh(Repr - old(Repr)) && state == Apply(old(state), Admit(id), maxConnections)
      ensures clients.Entries() == old(clients.Entries()) + [Clients.Client(id, "")]
    {
      hide Invariant, Apply, Enabled, Holds;
      AdmittedIs(state, id, maxConnections);
      UnknownClient(state, id);
      StepKeepsInvariant(state, Admit(id), maxConnections);
      Enroll(id, state, Apply(state, Admit(id), maxConnections));
      state := Apply(state, Admit(id), maxConnections);
    }

    lemma {:induction false} UnknownClient(s: State, id: Id)
      requires Holds(s) && Invariant(s, maxConnections) && id !in s.conns
      ensures id !in Clients.Ids(clients.Entries()) && clients.cursor != Some(id)
    {
      hide NicknamesApart, SessionsGood, WithinLimit, Server.Conserved;
      hide Clients.ClientList.Valid, Clients.ClientList.Entries, Separate, GoodBuffer;
    }

    // ----- the thread of a connection

    /** Where a connection that has not been dropped stands in the list. */
    lemma {:induction false} Stands(s: State, id: Id) returns (k: nat)
      requires Holds(s) && ListMatchesConns(s) && id in s.conns && s.conns[id].phase != Gone
      ensures clients.Valid() && k < |clients.Entries()| && Clients.Ids(clients.Entries())[k] == id == s.clients[k]
      ensures clients.Entries()[k].nickname == s.conns[id].nickname && k == Place(s.clients, id)
    {
      hide Clients.ClientList.Valid, Clients.ClientList.Entries, GoodBuffer;
      k := Place(s.clients, id);
    }

    /** One receive and one read by the thread of `id`, on its own buffer. */
    method Hear(id: Id, record: string, ghost s: State) returns (message: Outcome)
      requires BuffersHold(buffers, s) && id in buffers && Session.Whole(record)
      modifies buffers[id], buffers[id].data
      ensures BuffersHold(buffers, s) && message == Get(Arrived(record)).0
    {
      hide Get;
      var buffer := buffers[id];
      var defined := Session.Receive(buffer, record);
      WholeLeavesNul(record);
      GetKeeps(Arrived(record));
      message := buffer.NextMessage();
    }

    lemma {:induction false} ListedRenamed(entries: seq<Clients.Client>, s: State, s': State, k: nat, id: Id,
                                           nickname: string)
      requires Listed(entries, s) && k < |entries| && Clients.Ids(entries)[k] == id && Distinct(s.clients)
      requires s'.clients == s.clients && id in s.conns
      requires s'.conns.Keys == s.conns.Keys && s'.conns[id].nickname == nickname
      requires forall i <- s.conns :: i != id ==> s'.conns[i].nickname == s.conns[i].nickname
      ensures Listed(Clients.Renamed(entries, k, nickname), s')
    {
      var entries' := Clients.Renamed(entries, k, nickname);
      assert Clients.Ids(entries') == Clients.Ids(entries);
    }

    /** Nobody has the nickname, or the entry of the thread gets it. */
    method TakeNickname(id: Id, nickname: string, ghost s: State, ghost s': State, ghost k: nat) returns (taken: bool)
      requires ListHolds(s) && k < |clients.Entries()| && Clients.Ids(clients.Entries())[k] == id
      requires |nickname| < MAX_NICKNAME_SIZE && forall i <- s.conns :: |s.conns[i].nickname| < MAX_NICKNAME_SIZE
      requires !Taken(s, nickname) ==> Renames(s, s', id, nickname)
      modifies clients.list, clients.Repr
      ensures taken <==> Taken(s, nickname)
      ensures if taken then ListHolds(s) else ListHolds(s')
    {
      hide Clients.ClientList.Valid, Clients.ClientList.Entries, Clients.Ids, Clients.Renamed;
      clients.Facts();
      TakenOnList(clients.Entries(), s, nickname);
      var index := clients.FindNickname(nickname);
      taken := index >= 0;
      if index < 0 {
        ListedRenamed(clients.Entries(), s, s', k, id, nickname);
        clients.SetNickname(id, nickname, k);
      }
    }

    lemma {:induction false} TakenOnList(entries: seq<Clients.Client>, s: State, nickname: string)
      requires Listed(entries, s) && forall i <- s.conns :: |s.conns[i].nickname| < MAX_NICKNAME_SIZE
      ensures (exists client <- entries :: client.nickname == nickname) <==> Taken(s, nickname)
      ensures forall client <- entries :: |client.nickname| <= MAX_NICKNAME_SIZE
    {
      if Taken(s, nickname) {
        var i :| 0 <= i < |s.clients| && s.clients[i] in s.conns && s.conns[s.clients[i]].nickname == nickname;
        assert entries[i] in entries;
      }
      if client :| client in entries && client.nickname == nickname {
        var i :| 0 <= i < |entries| && entries[i] == client;
        assert s.clients[i] in s.conns;
      }
    }

    method Listen(id: Id, record: string, ghost s: State) returns (message: Outcome)
      requires this !in Repr && Holds(s) && id in buffers && Session.Whole(record)
      modifies buffers[id], buffers[id].data
      ensures this !in Repr && Holds(s) && Repr == old(Repr) && message == Get(Arrived(record)).0
    {
      hide Holds, ListHolds, QueueHolds, BuffersHold, Get;
      Parts(s);
      message := Hear(id, record, s);
      Together(s);
    }

    method Register(id: Id, nickname: string, ghost s: State, ghost s': State, ghost k: nat) returns (taken: bool)
      requires this !in Repr && Holds(s) && k < |clients.Entries()| && Clients.Ids(clients.Entries())[k] == id
      requires |nickname| < MAX_NICKNAME_SIZE && forall i <- s.conns :: |s.conns[i].nickname| < MAX_NICKNAME_SIZE
      requires !Taken(s, nickname) ==> Renames(s, s', id, nickname)
      modifies Repr
      ensures this !in Repr && Repr == old(Repr) && (taken <==> Taken(s, nickname))
      ensures if taken then Holds(s) else Holds(s')
    {
      hide Clients.ClientList.Entries, Owned, Holds, ListHolds, QueueHolds, BuffersHold, Taken, Renames;
      Parts(s);
      OwnsList();
      if !Taken(s, nickname) {
        RenamesKeeps(s, s', id, nickname);
      }
      taken := TakeNickname(id, nickname, s, s', k);
      Together(if taken then s else s');
    }

    lemma {:induction false} RenamesKeeps(s: State, s': State, id: Id, nickname: string)
      requires BuffersHold(buffers, s) && Renames(s, s', id, nickname)
      ensures BuffersHold(buffers, s') && s'.queue == s.queue && s'.popped == s.popped
    {
      SameBuffers(s, s');
    }

    lemma {:induction false} SameNamesBuffers(s: State, s': State)
      requires BuffersHold(buffers, s) && SameNames(s, s')
      ensures BuffersHold(buffers, s')
    {
      SameBuffers(s, s');
    }

    lemma {:induction false} SameBuffers(s: State, s': State)
      requires BuffersHold(buffers, s) && s'.conns.Keys == s.conns.Keys
      ensures BuffersHold(buffers, s')
    {
      hide GoodBuffer, Separate;
      forall id | id in s'.conns
        ensures id in buffers
      {
        assert id in s.conns;
      }
    }

    /** What the answer to a record changes that the heap shows. */
    lemma {:induction false} AuthenticatedIs(s: State, id: Id, record: string, max: nat)
      requires Enabled(s, Step.Authenticate(id, record))
      ensures id in s.conns && s.conns[id].phase == Authenticating && Session.Whole(record)
      ensures Renames(s, Apply(s, Step.Authenticate(id, record), max), id,
                    Answer(s, s.conns[id], Get(Arrived(record)).0))
    {
      hide Get, ValidNickname, Taken;
    }

    lemma {:induction false} NamesAreShort(s: State)
      requires SessionsGood(s)
      ensures forall i <- s.conns :: |s.conns[i].nickname| < MAX_NICKNAME_SIZE
    {
      hide ValidNickname, TraceShape;
      forall i | i in s.conns
        ensures |s.conns[i].nickname| < MAX_NICKNAME_SIZE
      {
        if s.conns[i].nickname != "" {
          ValidNicknameLength(s.conns[i].nickname);
        }
      }
    }

    lemma {:induction false} InvariantParts(s: State)
      requires Invariant(s, maxConnections)
      ensures ListMatchesConns(s) && SessionsGood(s)
    {
    }

    lemma {:induction false} HasBuffer(s: State, id: Id)
      requires Holds(s) && id in s.conns
      ensures id in buffers
    {
      hide Clients.ClientList.Valid, Clients.ClientList.Entries, GoodBuffer, Separate;
    }

    lemma {:induction false} NamedAside(s: State, s': State, id: Id)
      requires Holds(s) && id in s.conns && Renames(s, s', id, s.conns[id].nickname)
      ensures Holds(s')
    {
      hide Holds;
      HoldsAside(s, s');
    }

    /** A record is read off the thread's own buffer, and answered. */
    method AnswerRecord(id: Id, record: string, ghost s: State, ghost s': State, ghost k: nat)
      requires this !in Repr && Holds(s) && Session.Whole(record) && id in buffers && id in s.conns
      requires k < |clients.Entries()| && Clients.Ids(clients.Entries())[k] == id
      requires forall i <- s.conns :: |s.conns[i].nickname| < MAX_NICKNAME_SIZE
      requires Renames(s, s', id, Answer(s, s.conns[id], Get(Arrived(record)).0))
      modifies Repr
      ensures this !in Repr && Repr == old(Repr) && Holds(s')
    {
      hide Clients.ClientList.Entries, Holds, Get, ValidNickname, Taken, Renames;
      Parts(s);
      var message := Listen(id, record, s);
      if message.Got? && message.message.kind == Nick {
        var nick := message.message.content;
        if ValidNickname(nick) {
          ValidNicknameLength(nick);
          var taken := Register(id, nick, s, s', k);
          if !taken {
            return;
          }
        }
      }
      NamedAside(s, s', id);
    }

    /** A valid nickname that no listed client has is written into the thread's entry; any other answer leaves
        the list alone. */
    method TryAuthenticate(id: Id, record: string)
      requires Valid() && Enabled(state, Step.Authenticate(id, record))
      modifies this, Repr
      ensures Valid() && fresh(Repr - old(Repr))
      ensures state == Apply(old(state), Step.Authenticate(id, record), maxConnections)
    {
      hide Invariant, Holds, Apply, Enabled, Get, Answer, Renames, ListMatchesConns, SessionsGood;
      ghost var s := state;
      ghost var s' := Apply(s, Step.Authenticate(id, record), maxConnections);
      AuthenticatedIs(s, id, record, maxConnections);
      StepKeepsInvariant(s, Step.Authenticate(id, record), maxConnections);
      InvariantParts(s);
      NamesAreShort(s);
      HasBuffer(s, id);
      ghost var k := Stands(s, id);
      AnswerRecord(id, record, s, s', k);
      state := s';
    }

    /** What a session enqueues: the heap shows that and nothing else of the step. */
    lemma {:induction false} SpeaksIs(s: State, step: Step, max: nat)
      requires Enabled(s, step) && (step.Join? || step.Receive? || step.Bye?)
      ensures step.id in s.conns && s.conns[step.id].phase != Gone && (step.Receive? ==> Session.Whole(step.record))
      ensures var s', ms := Apply(s, step, max), Messages(s.conns[step.id], step);
        SameNames(s, s') && s'.current == s.current && s'.queue == s.queue + ms && s'.popped == s.popped
    {
      hide Messages, Entry, Apply, Enabled;
      SessionKeepsPhase(s, step);
      SessionIs(s, step, max);
      SessionAdds(s, step, max);
      SpeakingKeepsNickname(s, step);
    }

    lemma {:induction false} SpeakingKeepsNickname(s: State, step: Step)
      requires Enabled(s, step) && (step.Join? || step.Receive? || step.Bye?)
      ensures step.id in s.conns && (step.Receive? ==> Session.Whole(step.record))
      ensures Entry(s, s.conns[step.id], step).nickname == s.conns[step.id].nickname
    {
      hide BroadcastOf, Handle, Reads, Pushes, AllDefined, Messages;
    }

    lemma {:induction false} SameList(s: State, s': State)
      requires ListHolds(s) && SameNames(s, s') && s'.current == s.current
      ensures ListHolds(s')
    {
      hide Clients.ClientList.Valid, Clients.ClientList.Entries, Clients.Ids;
    }

    /** One round of the chat loop by the thread of `id`, on its own buffer and the queue. */
    method HearAndPush(id: Id, record: string, nickname: string, acks: nat -> bool, ghost s: State)
      returns (effects: seq<Effect>, quit: bool)
      requires BuffersHold(buffers, s) && QueueHolds(s.queue, s.popped)
      requires id in buffers && Session.Whole(record) && CString.NUL !in nickname
      modifies buffers[id], buffers[id].data, messages, messages.queue, messages.queue.nodes
      ensures BuffersHold(buffers, s) && QueueHolds(s.queue + Pushes(effects), s.popped)
      ensures (effects, quit) == Handle(Reads(Arrived(record)), nickname, acks, 0)
      ensures forall n <- messages.queue.nodes :: n in old(messages.queue.nodes) || fresh(n)
    {
      hide Handle, Reads, Pushes, Arrived;
      effects, quit := ReceiveAndHandle(buffers[id], record, nickname, acks, messages);
    }

    method Converse(id: Id, record: string, nickname: string, acks: nat -> bool, ghost s: State, ghost s': State)
      returns (effects: seq<Effect>, quit: bool)
      requires this !in Repr && Owned() && BuffersHold(buffers, s) && QueueHolds(s.queue, s.popped)
      requires id in buffers && Session.Whole(record) && CString.NUL !in nickname && SameNames(s, s')
      modifies this`Repr, buffers[id], buffers[id].data, messages, messages.queue, messages.queue.nodes
      ensures this !in Repr && fresh(Repr - old(Repr)) && Owned() && BuffersHold(buffers, s')
      ensures (effects, quit) == Handle(Reads(Arrived(record)), nickname, acks, 0)
      ensures QueueHolds(s.queue + Pushes(effects), s.popped)
    {
      hide Handle, Reads, Pushes, Arrived, BuffersHold, QueueHolds, SameNames;
      effects, quit := HearAndPush(id, record, nickname, acks, s);
      SameNamesBuffers(s, s');
      Repr := Repr + set n <- messages.queue.nodes;
    }

    /** The nickname that a session speaks under. */
    lemma {:induction false} SpeaksAs(s: State, step: Step)
      requires SessionsGood(s) && Enabled(s, step) && (step.Join? || step.Receive? || step.Bye?)
      ensures ValidNickname(s.conns[step.id].nickname) && CString.NUL !in s.conns[step.id].nickname
    {
      hide BroadcastOf, Handle, Reads, ValidNickname, TraceShape, AllDefined;
      NicknameHasNoBracket(s.conns[step.id].nickname);
    }

    method Chat(id: Id, record: string, acks: nat -> bool, ghost s: State, ghost s': State, ghost k: nat)
      returns (quit: bool)
      requires this !in Repr && Holds(s) && id in buffers && Session.Whole(record) && id in s.conns
      requires k < |clients.Entries()| && Clients.Ids(clients.Entries())[k] == id
      requires clients.Valid() && clients.Entries()[k].nickname == s.conns[id].nickname
      requires CString.NUL !in s.conns[id].nickname
      requires var effects := Handle(Reads(Arrived(record)), s.conns[id].nickname, acks, 0).0;
        s'.queue == s.queue + Pushes(effects) && s'.popped == s.popped
      requires SameNames(s, s') && s'.current == s.current
      modifies this`Repr, Repr
      ensures this !in Repr && fresh(Repr - old(Repr)) && Holds(s')
      ensures quit == Handle(Reads(Arrived(record)), s.conns[id].nickname, acks, 0).1
    {
      hide SameNames, Owned, Handle, Reads, Pushes, Arrived, Holds, ListHolds, BuffersHold, QueueHolds;
      hide Clients.ClientList.Valid, Clients.ClientList.Entries;
      Parts(s);
      OwnsBuffer(id);
      OwnsQueue();
      SameList(s, s');
      var effects;
      var nickname := clients.NicknameOf(id, k);
      effects, quit := Converse(id, record, nickname, acks, s, s');
      Together(s');
    }

    /** One receive on the thread's buffer, and the drain loop on what it brought, which pushes onto the queue
        of the server. */
    method ChatOnce(id: Id, record: string, acks: nat -> bool) returns (quit: bool)
      requires Valid() && Enabled(state, Step.Receive(id, record, acks))
      modifies this, Repr
      ensures Valid() && fresh(Repr - old(Repr))
      ensures state == Apply(old(state), Step.Receive(id, record, acks), maxConnections)
      ensures quit <==> id in state.conns && state.conns[id].phase == Leaving
    {
      hide Invariant, Holds, Apply, Enabled, Handle, Reads, Pushes, Arrived, ListMatchesConns, SessionsGood;
      ghost var s, step := state, Step.Receive(id, record, acks);
      ghost var s' := Apply(s, step, maxConnections);
      StepKeepsInvariant(s, step, maxConnections);
      SpeaksIs(s, step, maxConnections);
      InvariantParts(s);
      SpeaksAs(s, step);
      HasBuffer(s, id);
      ghost var k := Stands(s, id);
      QuitIs(s, id, record, acks);
      quit := Chat(id, record, acks, s, s', k);
      state := s';
    }

    lemma {:induction false} QuitIs(s: State, id: Id, record: string, acks: nat -> bool)
      requires Enabled(s, Step.Receive(id, record, acks))
      ensures id in s.conns && Session.Whole(record)
      ensures var s' := Apply(s, Step.Receive(id, record, acks), maxConnections);
        && id in s'.conns
        && (s'.conns[id].phase == Leaving <==> Handle(Reads(Arrived(record)), s.conns[id].nickname, acks, 0).1)
    {
      hide Handle, Reads, Pushes, Arrived, AllDefined;
    }

    /** What a session says of itself: in the source the words of the call, in the model those of the step. */
    ghost function Words(step: Step): string {
      if step.Join? then JOINED else LEFT
    }

    lemma {:induction false} WordsAreMessages(c: Conn, step: Step)
      requires step.Join? || step.Bye?
      ensures Messages(c, step) == Defined(BroadcastOf(Log, c.nickname, Words(step)))
    {
      hide BroadcastOf;
    }

    method Say(nickname: string, text: string, ghost s: State)
      requires this !in Repr && Owned() && QueueHolds(s.queue, s.popped)
      requires CString.NUL !in nickname && CString.NUL !in text
      modifies this`Repr, messages, messages.queue, messages.queue.nodes
      ensures this !in Repr && fresh(Repr - old(Repr)) && Owned()
      ensures QueueHolds(s.queue + Defined(BroadcastOf(Log, nickname, text)), s.popped)
    {
      hide BroadcastOf;
      var r := Broadcast(Log, nickname, text, messages);
      Repr := Repr + set n <- messages.queue.nodes;
    }

    method SayOfClient(id: Id, text: string, ghost s: State, ghost s': State, ghost k: nat)
      requires this !in Repr && Holds(s) && id in s.conns && clients.Valid()
      requires k < |clients.Entries()| && Clients.Ids(clients.Entries())[k] == id
      requires clients.Entries()[k].nickname == s.conns[id].nickname
      requires CString.NUL !in s.conns[id].nickname && CString.NUL !in text
      requires s'.queue == s.queue + Defined(BroadcastOf(Log, s.conns[id].nickname, text)) && s'.popped == s.popped
      requires SameNames(s, s') && s'.current == s.current
      modifies this`Repr, Repr
      ensures this !in Repr && fresh(Repr - old(Repr)) && Holds(s')
    {
      hide SameNames, Owned, BroadcastOf, Holds, ListHolds, BuffersHold, QueueHolds;
      hide Clients.ClientList.Valid, Clients.ClientList.Entries;
      Parts(s);
      OwnsQueue();
      SameNamesBuffers(s, s');
      SameList(s, s');
      var nickname := clients.NicknameOf(id, k);
      Say(nickname, text, s);
      Together(s');
    }

    /** A client has joined or left: its message is printed, built and pushed onto the queue. */
    method Announce(id: Id, text: string, ghost step: Step)
      requires Valid() && Enabled(state, step) && (step.Join? || step.Bye?) && step.id == id && text == Words(step)
      modifies this, Repr
      ensures Valid() && fresh(Repr - old(Repr)) && state == Apply(old(state), step, maxConnections)
      ensures old(state).queue < state.queue
    {
      hide Invariant, Holds, Apply, Enabled, BroadcastOf, ListMatchesConns, SessionsGood;
      ghost var s := state;
      ghost var s' := Apply(s, step, maxConnections);
      StepKeepsInvariant(s, step, maxConnections);
      SpeaksIs(s, step, maxConnections);
      InvariantParts(s);
      SpeaksAs(s, step);
      WordsAreMessages(s.conns[id], step);
      AnnouncementIsDefined(s, step);
      ghost var k := Stands(s, id);
      SayOfClient(id, text, s, s', k);
      state := s';
    }

    lemma {:induction false} AnnouncementIsDefined(s: State, step: Step)
      requires Enabled(s, step) && (step.Join? || step.Bye?)
      ensures step.id in s.conns && |Messages(s.conns[step.id], step)| == 1 && CString.NUL !in Words(step)
    {
      hide BroadcastOf;
    }

    // ----- leaving

    lemma {:induction false} ListedCut(entries: seq<Clients.Client>, s: State, s': State, k: nat, id: Id)
      requires Listed(entries, s) && Distinct(s.clients) && id in s.clients && k == Place(s.clients, id)
      requires s'.clients == s.clients[..k] + s.clients[k + 1..]
      requires s'.conns == s.conns[id := s.conns[id].(phase := Gone)]
      ensures Listed(Cut(entries, k), s')
    {
      hide Place;
      var entries' := Cut(entries, k);
      assert Clients.Ids(entries') == s'.clients;
      forall i | 0 <= i < |entries'|
        ensures s'.clients[i] in s'.conns && entries'[i].nickname == s'.conns[s'.clients[i]].nickname
      {
        assert s'.clients[i] == s.clients[if i < k then i else i + 1];
      }
    }

    method TakeOffList(id: Id, ghost s: State, ghost s': State)
      requires ListHolds(s) && Distinct(s.clients) && id in s.clients && id in s.conns
      requires s'.clients == s.clients[..Place(s.clients, id)] + s.clients[Place(s.clients, id) + 1..]
      requires s'.conns == s.conns[id := s.conns[id].(phase := Gone)]
      requires s'.current == if Place(s.clients, id) == 0 then After(s'.clients, 0) else s.current
      modifies clients`cursor, clients.list, clients.Repr
      ensures ListHolds(s')
      ensures clients.Entries() == Cut(old(clients.Entries()), Place(s.clients, id))
    {
      hide Clients.ClientList.Valid, Clients.ClientList.Entries, Place, Cut;
      ghost var entries := clients.Entries();
      ghost var k := clients.Remove(id);
      FoundAt(s.clients, id, k);
      ListedCut(entries, s, s', k, id);
    }

    lemma {:induction false} FoundAt(ids: seq<Id>, id: Id, k: nat)
      requires Distinct(ids) && k < |ids| && ids[k] == id
      ensures Place(ids, id) == k
    {
      hide Place;
    }

    method Detach(id: Id, ghost s: State, ghost s': State)
      requires this !in Repr && Holds(s) && Distinct(s.clients) && id in s.clients && id in s.conns
      requires s'.clients == s.clients[..Place(s.clients, id)] + s.clients[Place(s.clients, id) + 1..]
      requires s'.conns == s.conns[id := s.conns[id].(phase := Gone)]
      requires s'.current == if Place(s.clients, id) == 0 then After(s'.clients, 0) else s.current
      requires s'.queue == s.queue && s'.popped == s.popped
      modifies Repr
      ensures this !in Repr && Repr == old(Repr) && Holds(s')
      ensures clients.Entries() == Cut(old(clients.Entries()), Place(s.clients, id))
    {
      hide Clients.ClientList.Entries, Owned, Holds, ListHolds, QueueHolds, BuffersHold, Place, Cut;
      Parts(s);
      OwnsList();
      SameBuffers(s, s');
      TakeOffList(id, s, s');
      Together(s');
    }

    /** The entry of the thread is searched for and deleted; the cursor moves only if it was the first. */
    method DropClient(id: Id)
      requires Valid() && Enabled(state, Drop(id))
      modifies this, Repr
      ensures Valid() && fresh(Repr - old(Repr)) && state == Apply(old(state), Drop(id), maxConnections)
      ensures id in old(state).clients
      ensures clients.Entries() == Cut(old(clients.Entries()), Place(old(state).clients, id))
    {
      hide Invariant, Holds, Apply, Enabled, ListMatchesConns, SessionsGood, Place, Cut;
      ghost var s := state;
      ghost var s' := Apply(s, Drop(id), maxConnections);
      StepKeepsInvariant(s, Drop(id), maxConnections);
      DropIs(s, id, maxConnections);
      InvariantParts(s);
      ListIsDistinct(s);
      Detach(id, s, s');
      state := s';
    }

    // ----- the broadcast thread

    method TakeMessage(ghost s: State) returns (item: Option<C2HMessage>)
      requires Owned() && QueueHolds(s.queue, s.popped)
      modifies messages, messages.queue
      ensures Owned() && item == if s.queue == [] then None else Some(s.queue[0])
      ensures s.queue == [] ==> QueueHolds(s.queue, s.popped)
      ensures s.queue != [] ==> QueueHolds(s.queue[1..], s.popped + [s.queue[0]])
    {
      item := messages.DoTryPop();
    }

    method RewindList(ghost s: State, ghost s': State)
      requires ListHolds(s) && s'.clients == s.clients && s'.conns == s.conns
      requires s'.current == if s.clients == [] then s.current else Some(s.clients[0])
      modifies clients`cursor, clients.list, clients.Repr
      ensures ListHolds(s')
    {
      hide Clients.ClientList.Valid, Clients.ClientList.Entries;
      clients.Rewind();
    }

    lemma {:induction false} PoppedIs(s: State, max: nat)
      requires Enabled(s, Pop)
      ensures s.queue == [] ==> Apply(s, Pop, max) == s
      ensures s.queue != [] ==>
        var s' := Apply(s, Pop, max);
        && s'.clients == s.clients && s'.conns == s.conns
        && s'.current == (if s.clients == [] then s.current else Some(s.clients[0]))
        && s'.queue == s.queue[1..] && s'.popped == s.popped + [s.queue[0]] && s'.pass == Passing(s.queue[0], [])
    {
    }

    method StartPass(ghost s: State, ghost s': State) returns (item: Option<C2HMessage>)
      requires this !in Repr && Holds(s)
      requires s.queue == [] ==> s' == s
      requires s.queue != [] ==>
        && s'.clients == s.clients && s'.conns == s.conns
        && s'.current == (if s.clients == [] then s.current else Some(s.clients[0]))
        && s'.queue == s.queue[1..] && s'.popped == s.popped + [s.queue[0]]
      modifies Repr
      ensures this !in Repr && Repr == old(Repr) && Holds(s')
      ensures item == if s.queue == [] then None else Some(s.queue[0])
    {
      hide Owned, Holds, ListHolds, QueueHolds, BuffersHold;
      Parts(s);
      OwnsList();
      OwnsQueue();
      item := TakeMessage(s);
      SameBuffers(s, s');
      if item != None {
        RewindList(s, s');
      }
      Together(s');
    }

    /** The oldest message leaves the queue, and the cursor goes to the first client. */
    method PopAndRewind() returns (item: Option<C2HMessage>)
      requires Valid() && Enabled(state, Pop)
      modifies this, Repr
      ensures Valid() && fresh(Repr - old(Repr)) && state == Apply(old(state), Pop, maxConnections)
      ensures item.None? <==> old(state).queue == []
      ensures item.Some? ==> state.pass == Passing(item.value, []) && state.popped == old(state).popped + [item.value]
    {
      hide Invariant, Holds, Apply, Enabled;
      ghost var s := state;
      StepKeepsInvariant(s, Pop, maxConnections);
      PoppedIs(s, maxConnections);
      item := StartPass(s, Apply(s, Pop, maxConnections));
      state := Apply(s, Pop, maxConnections);
    }

    /** Where the cursor stands; behind the last client when it is NULL. */
    ghost function CursorPlace(s: State): nat {
      if s.current.Some? && s.current.value in s.clients then Place(s.clients, s.current.value) else |s.clients|
    }

    method AdvanceOnList(ghost s: State, ghost s': State) returns (client: Option<Clients.Client>)
      requires ListHolds(s) && SameNames(s, s') && (s.current.Some? ==> s.current.value in s.clients)
      requires s'.current == if s.current.None? then None else After(s.clients, CursorPlace(s) + 1)
      modifies clients`cursor, clients.list, clients.Repr
      ensures ListHolds(s')
      ensures client.None? <==> s.current.None?
      ensures client.Some? ==>
        && client.value.threadID == s.current.value && s.current.value in s.conns
        && client.value.nickname == s.conns[s.current.value].nickname
    {
      hide SameNames, Clients.ClientList.Valid, Clients.ClientList.Entries, Place, Listed, Clients.Ids, CursorPlace;
      ghost var entries := clients.Entries();
      CursorEntry(entries, s);
      ListedAside(entries, s, s');
      client := clients.Advance(CursorPlace(s));
    }

    lemma {:induction false} CursorEntry(entries: seq<Clients.Client>, s: State)
      requires Listed(entries, s) && (s.current.Some? ==> s.current.value in s.clients)
      ensures Clients.Ids(entries) == s.clients && |entries| == |s.clients|
      ensures var k := CursorPlace(s);
        && k <= |entries| && (k == |entries| <==> s.current.None?)
        && (k < |entries| ==>
              && s.clients[k] == entries[k].threadID == s.current.value && s.current.value in s.conns
              && entries[k].nickname == s.conns[s.current.value].nickname)
    {
      hide Place;
    }

    lemma {:induction false} ListedAside(entries: seq<Clients.Client>, s: State, s': State)
      requires Listed(entries, s) && SameNames(s, s')
      ensures Listed(entries, s') && s'.clients == s.clients
    {
    }

    method VisitNext(ghost s: State, ghost s': State) returns (client: Option<Clients.Client>)
      requires this !in Repr && Holds(s) && SameNames(s, s') && (s.current.Some? ==> s.current.value in s.clients)
      requires s'.current == if s.current.None? then None else After(s.clients, CursorPlace(s) + 1)
      requires s'.queue == s.queue && s'.popped == s.popped
      modifies Repr
      ensures this !in Repr && Repr == old(Repr) && Holds(s')
      ensures client.None? <==> s.current.None?
      ensures client.Some? ==>
        && client.value.threadID == s.current.value && s.current.value in s.conns
        && client.value.nickname == s.conns[s.current.value].nickname
    {
      hide Clients.ClientList.Entries, SameNames, Owned, Holds, ListHolds, QueueHolds, BuffersHold, CursorPlace;
      Parts(s);
      OwnsList();
      SameNamesBuffers(s, s');
      client := AdvanceOnList(s, s');
      Together(s');
    }

    /** The client under the cursor is handed out if it has a nickname, and the cursor moves on; behind the last
        one the pass is over. */
    method SendToNext() returns (over: bool, to: Option<Id>)
      requires Valid() && Enabled(state, Next)
      modifies this, Repr
      ensures Valid() && fresh(Repr - old(Repr)) && state == Apply(old(state), Next, maxConnections)
      ensures over <==> state.pass.Done?
      ensures state.pass.got == old(state).pass.got + if to.None? then [] else [to.value]
    {
      hide Invariant, Holds, Apply, Enabled, CursorPlace;
      ghost var s := state;
      ghost var s' := Apply(s, Next, maxConnections);
      StepKeepsInvariant(s, Next, maxConnections);
      NextIs(s, maxConnections);
      CursorMovesTo(s);
      var client := VisitNext(s, s');
      state := s';
      if client == None {
        return true, None;
      }
      over := false;
      to := if |client.value.nickname| == 0 then None else Some(client.value.threadID);
    }

    lemma {:induction false} CursorMovesTo(s: State)
      ensures s.current.Some? && s.current.value in s.clients ==> CursorPlace(s) == Place(s.clients, s.current.value)
    {
    }

    // ----- the steps that only move a thread on

    predicate MovesOn(step: Step) {
      step.Welcome? || step.GiveUp? || step.Hello? || step.Leave?
    }

    lemma {:induction false} MovingOnIs(s: State, step: Step, max: nat)
      requires Enabled(s, step) && MovesOn(step)
      ensures var s' := Apply(s, step, max);
        SameNames(s, s') && s'.current == s.current && s'.queue == s.queue && s'.popped == s.popped
    {
    }

    ghost method MoveOn(step: Step)
      requires Valid() && Enabled(state, step) && MovesOn(step)
      modifies this`state
      ensures Valid() && state == Apply(old(state), step, maxConnections)
    {
      hide Invariant, Holds, Apply, Enabled, SameNames;
      MovingOnIs(state, step, maxConnections);
      StepKeepsInvariant(state, step, maxConnections);
      HoldsAside(state, Apply(state, step, maxConnections));
      state := Apply(state, step, maxConnections);
    }

    /** The first words to a client. Only the complete record takes its thread to the authentication; a send
        that is still waiting leaves it where it is. */
    method SendWelcome(id: Id, writes: seq<int>) returns (wire: string, result: Option<int>)
      requires Valid() && InPhase(state, id, Starting)
      modifies this, Repr
      ensures Valid() && Repr == old(Repr)
      ensures state == Greeted(old(state), id, result, maxConnections)
      ensures result.Some? && result.value > 0 ==> wire == WelcomeRecord()
    {
      hide Invariant, Holds, Apply, Enabled, WelcomeRecord, Greeted;
      wire, result := SayWelcome(writes);
      StillWaits(state, id);
      if result != None {
        CanWelcome(state, id, result.value);
        MoveOn(Step.Welcome(id, result.value > 0));
      }
    }

    /** The hello carries the nickname of the client's own entry. */
    method SendHello(id: Id, writes: seq<int>) returns (wire: string, result: Option<int>)
      requires Valid() && InPhase(state, id, Phase.Greeting) && '%' !in state.conns[id].nickname
      modifies this, Repr
      ensures Valid() && Repr == old(Repr)
      ensures state == Greeted(old(state), id, result, maxConnections)
      ensures result.Some? && result.value > 0 ==> wire == HelloRecord(NicknameOf(old(state), id))
    {
      hide Invariant, Holds, Apply, Enabled, Greeted, ListMatchesConns, SessionsGood, Clients.ClientList.Entries;
      hide HelloRecord;
      InvariantParts(state);
      GreetsAs(state, id);
      ghost var k := Stands(state, id);
      var nickname := clients.NicknameOf(id, k);
      wire, result := SayHello(nickname, writes);
      StillWaits(state, id);
      if result != None {
        CanHello(state, id, result.value);
        MoveOn(Step.Hello(id, result.value > 0));
      }
    }

    method SayWelcome(writes: seq<int>) returns (wire: string, result: Option<int>)
      ensures result.Some? && result.value > 0 ==> wire == WelcomeRecord()
    {
      hide Wire;
      wire, result := SendMessage(Ok, Handshake.WELCOME, writes);
    }

    method SayHello(nickname: string, writes: seq<int>) returns (wire: string, result: Option<int>)
      requires |nickname| <= 15 && CString.NUL !in nickname && '%' !in nickname
      ensures result.Some? && result.value > 0 ==> wire == HelloRecord(nickname)
    {
      hide Wire;
      wire, result := SendMessage(Ok, Handshake.HelloText(nickname), writes);
    }

    lemma {:induction false} CanWelcome(s: State, id: Id, n: int)
      requires InPhase(s, id, Starting)
      ensures Enabled(s, Step.Welcome(id, n > 0))
      ensures Greeted(s, id, Some(n), maxConnections) == Apply(s, Step.Welcome(id, n > 0), maxConnections)
    {
      hide Apply;
    }

    lemma {:induction false} CanHello(s: State, id: Id, n: int)
      requires InPhase(s, id, Phase.Greeting) && '%' !in s.conns[id].nickname
      ensures Enabled(s, Step.Hello(id, n > 0))
      ensures Greeted(s, id, Some(n), maxConnections) == Apply(s, Step.Hello(id, n > 0), maxConnections)
    {
      hide Apply;
    }

    lemma {:induction false} StillWaits(s: State, id: Id)
      ensures Greeted(s, id, None, maxConnections) == s
    {
    }

    lemma {:induction false} GreetsAs(s: State, id: Id)
      requires SessionsGood(s) && InPhase(s, id, Phase.Greeting)
      ensures |s.conns[id].nickname| <= 15 && CString.NUL !in s.conns[id].nickname
    {
      hide TraceShape, ValidNickname;
      ValidNicknameLength(s.conns[id].nickname);
      NicknameHasNoBracket(s.conns[id].nickname);
    }

    // ----- any schedule

    /** One step of one thread, whichever it is. */
    method Perform(step: Step)
      requires Valid() && Enabled(state, step)
      modifies this, Repr
      ensures Valid() && fresh(Repr - old(Repr)) && state == Apply(old(state), step, maxConnections)
    {
      hide Invariant, Holds, Apply;
      match step
      case CheckLimit => var room := LimitCheck();
      case Admit(id) => AppendClient(id);
      case Authenticate(id, record) => TryAuthenticate(id, record);
      case Join(id) => Announce(id, JOINED, step);
      case Receive(id, record, acks) => var quit := ChatOnce(id, record, acks);
      case Bye(id) => Announce(id, LEFT, step);
      case Drop(id) => DropClient(id);
      case Pop => var item := PopAndRewind();
      case Next => var over, to := SendToNext();
      case _ => MoveOn(step);
    }

    /** Whatever order the scheduler gives the steps of the threads, the heap ends up as the run says; and so
        with everything that holds after every run. */
    method Schedule(steps: seq<Step>)
      requires Valid() && Run(state, steps, maxConnections).Some?
      modifies this, Repr
      ensures Valid() && fresh(Repr - old(Repr)) && Some(state) == Run(old(state), steps, maxConnections)
      decreases |steps|
    {
      hide Invariant, Holds, Apply, Enabled;
      if steps != [] {
        Perform(steps[0]);
        Schedule(steps[1..]);
      }
    }
  }
}
