/** What the two sides of an exchange do in which order (src/client/client.c:298-352, 500-585,
    src/server/server.c:389-409, 667-810), told by the events alone: the state that is reached depends on
    nothing but what either side has done so far. */
module HandshakeScript {
  import opened Message
  import opened Session
  import opened Handshake

  predicate OfClient(e: Event) {
    e.ClientRead? || e.ClientTimeout? || e.ClientSeesClose?
  }

  /** The events of one side, in order. */
  function Part(events: seq<Event>, client: bool): seq<Event> {
    if events == [] then []
    else
      var last := events[|events| - 1];
      Part(events[..|events| - 1], client) + (if OfClient(last) == client then [last] else [])
  }

  /** The server has room, greets the client and asks for its name. */
  const OPENED: seq<Event> := [Accept(false), SendWelcome, SendPrompt]

  /** Asked for a name the server gives up in time, at the end of the connection, or on a name that is taken
      or none. */
  predicate Refusal(e: Event, username: string) {
    || e.ServerTimeout?
    || e.ServerSeesClose?
    || (e.ReadNick? && (e.taken || !ValidNickname(Offered(username))))
  }

  predicate Refused(done: seq<Event>, username: string) {
    |done| >= 4 && done[..3] == OPENED && Refusal(done[3], username)
  }

  predicate NameStands(nickname: string, username: string) {
    nickname == Offered(username) && ValidNickname(nickname)
  }

  /** All that the server has done by the time it is in a phase. */
  predicate ServerCourse(done: seq<Event>, username: string, phase: ServerPhase) {
    match phase
    case Accepting => done == []
    case Welcoming => done == [Accept(false)]
    case Prompting => done == [Accept(false), SendWelcome]
    case AwaitNick => done == OPENED
    case Denying => |done| == 4 && Refused(done, username)
    case Closed => done == [Accept(true)] || (|done| == 5 && Refused(done, username) && done[4] == Deny)
    case Helloing(n) => done == OPENED + [ReadNick(false)] && NameStands(n, username)
    case Admitted(n) => done == OPENED + [ReadNick(false), SendHello] && NameStands(n, username) && '%' !in n
  }

  /** The record that an event of the server sends, if it sends one. */
  function WordOf(e: Event, username: string): seq<string> {
    match e
    case Accept(full) => if full then [Record(Err, LIMIT)] else []
    case SendWelcome => [Record(Ok, WELCOME)]
    case SendPrompt => [Record(Nick, PROMPT)]
    case ReadNick(_) => if ValidNickname(Offered(username)) then [] else [Record(Err, INVALID)]
    case ServerTimeout => [Record(Err, TIMEOUT)]
    case Deny => [Record(Err, REFUSED)]
    case SendHello => [Record(Ok, HelloText(Offered(username)))]
    case _ => []
  }

  function Said(done: seq<Event>, username: string): seq<string> {
    if done == [] then []
    else Said(done[..|done| - 1], username) + WordOf(done[|done| - 1], username)
  }

  /** A client whose name is too short, or that was told of the limit, reads nothing behind the first word. */
  predicate StopsEarly(done: seq<Event>, username: string) {
    |username| < 2 || Accept(true) in done
  }

  /** Where a client is that has read a number of words. */
  function ClientAt(heard: nat, done: seq<Event>, username: string): ClientPhase {
    if heard == 0 then AwaitWelcome
    else if StopsEarly(done, username) then Failed
    else if heard == 1 then AwaitPrompt
    else if heard == 2 then AwaitReply
    else if SendHello in done then Succeeded
    else Failed
  }

  predicate OnlyReads(events: seq<Event>) {
    forall e <- events :: e == ClientRead
  }

  function Reads(own: seq<Event>): nat {
    if own == [ClientTimeout] then 0 else |own|
  }

  predicate NameRead(done: seq<Event>) {
    ReadNick(true) in done || ReadNick(false) in done
  }

  /** Nothing has come in time, or the welcome found the name too short. */
  predicate GivesUp(own: seq<Event>, username: string) {
    own == [ClientTimeout] || (|username| < 2 && |own| == 1)
  }

  /** The client gives up before it has heard anything, or it reads up to three words. */
  predicate ClientCourse(own: seq<Event>, done: seq<Event>, username: string, phase: ClientPhase) {
    if own == [ClientTimeout] then phase == Failed
    else OnlyReads(own) && |own| <= 3 && (StopsEarly(done, username) ==> |own| <= 1)
         && phase == ClientAt(|own|, done, username)
  }

  /** The state as the two courses give it. */
  predicate Course(done: seq<Event>, own: seq<Event>, username: string, p: Peers) {
    && ServerCourse(done, username, p.server)
    && ClientCourse(own, done, username, p.client)
    && (NameRead(done) ==> |own| >= 2)
    && (ServerSeesClose in done ==> GivesUp(own, username))
    && Reads(own) <= |Said(done, username)|
    && p.toClient == Said(done, username)[Reads(own)..]
    && p.toServer == if Reads(own) >= 2 && !NameRead(done) then [NickRecord(username)] else []
  }

  // ----- the words

  lemma {:induction false} SaidMore(done: seq<Event>, e: Event, username: string)
    ensures Said(done + [e], username) == Said(done, username) + WordOf(e, username)
  {
    assert (done + [e])[..|done|] == done;
  }

  lemma {:induction false} WordSays(e: Event, username: string)
    requires e.SendHello? ==> ValidNickname(Offered(username))
    ensures forall i :: 0 <= i < |WordOf(e, username)| ==>
      Says(WordOf(e, username)[i], if e.SendWelcome? || e.SendHello? then Ok else if e.SendPrompt? then Nick else Err)
  {
    hide Says, Record, HelloText, Offered;
    RecordSays(Err, LIMIT);
    RecordSays(Err, INVALID);
    RecordSays(Err, TIMEOUT);
    RecordSays(Err, REFUSED);
    RecordSays(Ok, WELCOME);
    RecordSays(Nick, PROMPT);
    if e.SendHello? {
      hide ValidNickname;
      ValidNicknameLength(Offered(username));
      HelloTextLength(Offered(username));
      RecordSays(Ok, HelloText(Offered(username)));
    }
  }

  lemma {:induction false} SaidOpened(username: string)
    ensures Said([], username) == [] && Said([Accept(true)], username) == [Record(Err, LIMIT)]
    ensures Said([Accept(false)], username) == []
    ensures Said([Accept(false), SendWelcome], username) == [Record(Ok, WELCOME)]
    ensures Said(OPENED, username) == [Record(Ok, WELCOME), Record(Nick, PROMPT)]
  {
    hide Record, ValidNickname, Offered;
    SaidMore([], Accept(false), username);
    SaidMore([], Accept(true), username);
    SaidMore([Accept(false)], SendWelcome, username);
    SaidMore([Accept(false), SendWelcome], SendPrompt, username);
    assert [] + [Accept(false)] == [Accept(false)] && [] + [Accept(true)] == [Accept(true)];
    assert [Accept(false)] + [SendWelcome] == [Accept(false), SendWelcome];
    assert [Accept(false), SendWelcome] + [SendPrompt] == OPENED;
  }

  /** The words of a server that has opened: the first two are the welcome and the prompt, and behind them come
      the hello or refusals. */
  predicate Replies(words: seq<string>, done: seq<Event>, username: string) {
    && |words| >= 2 && words[0] == Record(Ok, WELCOME) && words[1] == Record(Nick, PROMPT)
    && (|words| > 2 ==> Says(words[2], if SendHello in done then Ok else Err))
  }

  const GREETING: seq<string> := [Record(Ok, WELCOME), Record(Nick, PROMPT)]

  lemma {:induction false} SaidAll(done: seq<Event>, username: string)
    requires 3 <= |done| <= 5 && done[..3] == OPENED
    ensures Said(done, username) == GREETING + (if |done| > 3 then WordOf(done[3], username) else [])
                                  + (if |done| > 4 then WordOf(done[4], username) else [])
  {
    hide WordOf, Record;
    if |done| == 3 {
      SaidOpened(username);
      assert done == OPENED;
    } else {
      var before := done[..|done| - 1];
      assert before + [done[|done| - 1]] == done && before[..3] == OPENED;
      SaidAll(before, username);
      SaidMore(before, done[|done| - 1], username);
    }
  }

  lemma {:induction false} SaidBehind(done: seq<Event>, username: string)
    requires 3 <= |done| <= 5 && done[..3] == OPENED
    requires |done| > 3 ==> Refusal(done[3], username) || (done[3] == ReadNick(false) && ValidNickname(Offered(username)))
    requires |done| > 4 ==> done[4] == if Refusal(done[3], username) then Deny else SendHello
    ensures Replies(Said(done, username), done, username)
  {
    hide Record, Says, Offered, HelloText, ValidNickname, Said;
    SaidAll(done, username);
    if |done| > 3 {
      WordSays(done[3], username);
    }
    if |done| > 4 {
      WordSays(done[4], username);
    }
  }

  // ----- one event

  lemma {:induction false} PartMore(events: seq<Event>, e: Event, client: bool)
    ensures Part(events + [e], client)
         == if OfClient(e) == client then Part(events, client) + [e] else Part(events, client)
  {
    assert (events + [e])[..|events|] == events;
  }

  /** Which event may come next, by what has been done. */
  predicate MayFollow(done: seq<Event>, own: seq<Event>, username: string, e: Event) {
    match e
    case Accept(_) => done == []
    case SendWelcome => done == [Accept(false)]
    case SendPrompt => done == [Accept(false), SendWelcome]
    case ReadNick(_) => done == OPENED && |own| == 2
    case ServerTimeout => done == OPENED
    case ServerSeesClose => done == OPENED && GivesUp(own, username)
    case Deny => |done| == 4 && Refused(done, username)
    case SendHello => |done| == 4 && done == OPENED + [ReadNick(false)] && Acceptable(username)
    case ClientRead =>
      && own != [ClientTimeout] && |own| < |Said(done, username)|
      && |own| < if StopsEarly(done, username) then 1 else 3
    case ClientTimeout => own == []
    case ClientSeesClose => false
  }

  /** How many words there are, and what the unread ones begin with. */
  lemma {:induction false} CourseSays(done: seq<Event>, own: seq<Event>, username: string, p: Peers)
    requires Course(done, own, username, p)
    ensures done == [] || done == [Accept(false)] ==> Said(done, username) == []
    ensures done == [Accept(true)] ==> Said(done, username) == [Record(Err, LIMIT)]
    ensures done == [Accept(false), SendWelcome] ==> Said(done, username) == [Record(Ok, WELCOME)]
    ensures |done| >= 3 ==> Accept(true) !in done && Replies(Said(done, username), done, username)
    ensures p.server.AwaitNick? || p.server.Helloing? ==> |Said(done, username)| == 2
    ensures p.server.Admitted? ==> |Said(done, username)| == 3 && SendHello in done
    ensures p.server.Closed? && |done| > 1 ==> |Said(done, username)| >= 3
  {
    hide Record, Says, Offered, HelloText, ValidNickname, Said, ClientCourse;
    SaidOpened(username);
    if |done| >= 3 {
      assert done[..3] == OPENED;
      SaidBehind(done, username);
      SaidAll(done, username);
    }
  }

  lemma {:induction false} NextEvent(done: seq<Event>, own: seq<Event>, username: string, p: Peers, e: Event)
    requires Course(done, own, username, p)
    ensures Possible(p, e) <==> MayFollow(done, own, username, e)
  {
    hide Record, Says, Offered, HelloText, ValidNickname, Said;
    CourseSays(done, own, username, p);
  }

  lemma {:induction false} ServerGoesOn(done: seq<Event>, own: seq<Event>, username: string, p: Peers, e: Event)
    requires Course(done, own, username, p) && Possible(p, e) && !OfClient(e)
    ensures ServerCourse(done + [e], username, After(p, e, username).server)
    ensures After(p, e, username).toClient == p.toClient + WordOf(e, username)
  {
    hide Parse, Record, Says, Offered, HelloText, ValidNickname, Said, NickRecord, ClientCourse;
    NextEvent(done, own, username, p, e);
    if e.ReadNick? {
      ShortNameWaits(done, own, username, p);
      NickHeard(username);
    }
  }

  lemma {:induction false} ShortNameWaits(done: seq<Event>, own: seq<Event>, username: string, p: Peers)
    requires Course(done, own, username, p) && |own| >= 2
    ensures |username| >= 2
  {
    hide ServerCourse, Said, NickRecord;
  }

  lemma {:induction false} ServerLeavesClient(done: seq<Event>, own: seq<Event>, username: string, p: Peers, e: Event)
    requires Course(done, own, username, p) && Possible(p, e) && !OfClient(e)
    ensures ClientCourse(own, done + [e], username, p.client) && After(p, e, username).client == p.client
    ensures NameRead(done + [e]) ==> |own| >= 2
    ensures ServerSeesClose in done + [e] ==> GivesUp(own, username)
    ensures After(p, e, username).toServer
         == if Reads(own) >= 2 && !NameRead(done + [e]) then [NickRecord(username)] else []
  {
    hide Parse, Record, Says, Offered, HelloText, ValidNickname, Said, NickRecord;
    CourseSays(done, own, username, p);
    NextEvent(done, own, username, p, e);
  }

  lemma {:induction false} ServerStepKeeps(done: seq<Event>, own: seq<Event>, username: string, p: Peers, e: Event)
    requires Course(done, own, username, p) && Possible(p, e) && !OfClient(e)
    ensures Course(done + [e], own, username, After(p, e, username))
  {
    hide After, Possible, ServerCourse, ClientCourse, WordOf, NameRead, GivesUp, Said, Reads, NickRecord;
    ServerGoesOn(done, own, username, p, e);
    ServerLeavesClient(done, own, username, p, e);
    SaidMore(done, e, username);
  }

  /** What the client makes of the word that comes next. */
  lemma {:induction false} ClientHears(done: seq<Event>, own: seq<Event>, username: string, p: Peers)
    requires Course(done, own, username, p) && MayFollow(done, own, username, ClientRead)
    ensures Possible(p, ClientRead) && |own| <= 2
    ensures var q := After(p, ClientRead, username);
      && q.server == p.server
      && q.client == ClientAt(|own| + 1, done, username)
      && q.toServer == if |own| == 1 && q.client.AwaitReply? then [NickRecord(username)] else p.toServer
  {
    hide Parse, Record, Offered, HelloText, ValidNickname, Said, NickRecord;
    CourseSays(done, own, username, p);
    NextEvent(done, own, username, p, ClientRead);
    RecordSays(Err, LIMIT);
    RecordSays(Ok, WELCOME);
    RecordSays(Nick, PROMPT);
  }

  lemma {:induction false} ClientStepKeeps(done: seq<Event>, own: seq<Event>, username: string, p: Peers, e: Event)
    requires Course(done, own, username, p) && Possible(p, e) && OfClient(e)
    ensures Course(done, own + [e], username, After(p, e, username))
  {
    hide Parse, Record, Offered, HelloText, ValidNickname, Said, NickRecord, WordOf, OnMessage;
    NextEvent(done, own, username, p, e);
    if e.ClientRead? {
      ClientHears(done, own, username, p);
      ReadShortens(p, username);
      assert (own + [e])[|own|] == ClientRead;
    } else {
      assert own + [e] == [ClientTimeout];
    }
  }

  /** Every state of every exchange is the one that the two courses give. */
  lemma {:induction false} EveryCourse(before: seq<Event>, p: Peers, events: seq<Event>, username: string, q: Peers)
    requires Course(Part(before, false), Part(before, true), username, p) && Reaches(p, events, username, q)
    ensures Course(Part(before + events, false), Part(before + events, true), username, q)
    decreases |events|
  {
    hide Course, After, Possible, Part;
    if events == [] {
      assert before + events == before;
    } else {
      var e, rest := events[0], events[1..];
      PartMore(before, e, false);
      PartMore(before, e, true);
      if OfClient(e) {
        ClientStepKeeps(Part(before, false), Part(before, true), username, p, e);
      } else {
        ServerStepKeeps(Part(before, false), Part(before, true), username, p, e);
      }
      assert before + events == before + [e] + rest;
      EveryCourse(before + [e], After(p, e, username), rest, username, q);
    }
  }

  lemma {:induction false} PartsHold(events: seq<Event>, e: Event)
    ensures e in events <==> e in Part(events, OfClient(e))
    ensures |events| == |Part(events, false)| + |Part(events, true)|
  {
    if events != [] {
      PartsHold(events[..|events| - 1], e);
    }
  }

  lemma {:induction false} StartOfCourse(username: string)
    ensures Part([], false) == [] && Part([], true) == [] && Course([], [], username, START)
  {
  }

  lemma {:induction false} CourseOfExchange(events: seq<Event>, username: string, p: Peers)
    requires Reaches(START, events, username, p)
    ensures Course(Part(events, false), Part(events, true), username, p)
  {
    hide Course, Reaches, Part;
    StartOfCourse(username);
    EveryCourse([], START, events, username, p);
    assert [] + events == events;
  }

  /** Whatever happens, the state is the one that the two courses give, they say exactly what may happen next,
      and there is an end after eight events. */
  lemma {:induction false} EveryExchange(events: seq<Event>, username: string, p: Peers)
    requires Reaches(START, events, username, p)
    ensures Course(Part(events, false), Part(events, true), username, p)
    ensures forall e :: Possible(p, e) <==> MayFollow(Part(events, false), Part(events, true), username, e)
    ensures |events| <= 8
  {
    hide Course, Possible, MayFollow, Reaches, Part;
    CourseOfExchange(events, username, p);
    forall e ensures Possible(p, e) <==> MayFollow(Part(events, false), Part(events, true), username, e) {
      NextEvent(Part(events, false), Part(events, true), username, p, e);
    }
    PartsHold(events, ClientRead);
    CourseIsShort(Part(events, false), Part(events, true), username, p);
  }

  lemma {:induction false} CourseIsShort(done: seq<Event>, own: seq<Event>, username: string, p: Peers)
    requires Course(done, own, username, p)
    ensures |done| <= 5 && |own| <= 3
  {
    hide Said;
  }

  /** Who is let in has been told so in answer to a name that was read, found free and valid, after the server
      had room for the connection and had not lost patience. */
  lemma {:induction false} LetIn(events: seq<Event>, username: string, p: Peers)
    requires Reaches(START, events, username, p)
    ensures p.server.Admitted? ==>
      && Accept(false) in events && ReadNick(false) in events && SendHello in events
      && ReadNick(true) !in events && Accept(true) !in events && ServerTimeout !in events && Deny !in events
    ensures ReadNick(true) in events || Accept(true) in events || ServerTimeout in events ==>
      !p.client.Succeeded? && !p.server.Admitted? && !p.server.Helloing?
  {
    hide Course, Reaches, Part;
    CourseOfExchange(events, username, p);
    PartsHold(events, Accept(false));
    PartsHold(events, Accept(true));
    PartsHold(events, ReadNick(false));
    PartsHold(events, ReadNick(true));
    PartsHold(events, ServerTimeout);
    PartsHold(events, Deny);
    PartsHold(events, SendHello);
    LetInByCourse(Part(events, false), Part(events, true), username, p);
  }

  lemma {:induction false} LetInByCourse(done: seq<Event>, own: seq<Event>, username: string, p: Peers)
    requires Course(done, own, username, p)
    ensures p.server.Admitted? || p.server.Helloing? ==>
      && Accept(false) in done && ReadNick(false) in done
      && ReadNick(true) !in done && Accept(true) !in done && ServerTimeout !in done && Deny !in done
    ensures p.server.Admitted? ==> SendHello in done
    ensures p.client.Succeeded? ==> p.server.Admitted?
  {
    hide Said, ValidNickname, Offered;
  }

  /** The same courses lead to the same state, however the two sides take turns. */
  lemma {:induction false} TurnsDoNotMatter(one: seq<Event>, other: seq<Event>, username: string, p: Peers, q: Peers)
    requires Reaches(START, one, username, p) && Reaches(START, other, username, q)
    requires Part(one, false) == Part(other, false) && Part(one, true) == Part(other, true)
    ensures p == q
  {
    hide Reaches, Part, Said, Offered, ValidNickname, Record;
    CourseOfExchange(one, username, p);
    CourseOfExchange(other, username, q);
  }

  predicate Patient(e: Event) {
    !e.ServerTimeout? && !e.ClientTimeout?
  }

  predicate Over(p: Peers) {
    !Waiting(p.client) && (p.server.Admitted? || p.server.Closed?)
  }

  /** A server that waits for the client, or is done with it, leaves something to read or an end to see. */
  lemma {:induction false} ClientCanMove(p: Peers, username: string)
    requires Consistent(p, username) && !Over(p)
    ensures p.server.AwaitNick? ==>
      Possible(p, ReadNick(true)) || Possible(p, ClientRead) || Possible(p, ServerSeesClose)
    ensures p.server.Closed? || p.server.Admitted? ==> Possible(p, ClientRead)
  {
    hide ValidNickname, Offered, NickRecord, Says;
  }

  lemma {:induction false} SomethingHappens(p: Peers, username: string) returns (e: Event)
    requires Consistent(p, username) && '%' !in Offered(username) && !Over(p)
    ensures Patient(e) && Possible(p, e)
  {
    hide ValidNickname, Offered, NickRecord, Expected;
    ClientCanMove(p, username);
    match p.server
    case Accepting => e := Accept(true);
    case Welcoming => e := SendWelcome;
    case Prompting => e := SendPrompt;
    case AwaitNick =>
      e := if Possible(p, ReadNick(true)) then ReadNick(true)
           else if Possible(p, ClientRead) then ClientRead else ServerSeesClose;
    case Denying => e := Deny;
    case Helloing(_) => e := SendHello;
    case _ => e := ClientRead;
  }

  /** As long as an exchange is not over on both sides something other than the loss of patience can happen,
      and nothing can when it is; a name with a `%` in it has no defined outcome once it has been taken. */
  lemma {:induction false} EveryExchangeEnds(events: seq<Event>, username: string, p: Peers)
    requires Reaches(START, events, username, p) && '%' !in Offered(username)
    ensures !Over(p) <==> exists e :: Patient(e) && Possible(p, e)
  {
    hide Reaches, Consistent, Offered;
    StartIsConsistent(username);
    ReachableIsConsistent(START, events, username, p);
    if !Over(p) {
      var e := SomethingHappens(p, username);
    }
  }
}
