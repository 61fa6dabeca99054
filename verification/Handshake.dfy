/** Connecting and authenticating: the client of src/client/client.c:298-352, 500-585 and the server of
    src/server/server.c:389-409, 667-810 over two channels that keep records apart. Each read gets
    one record into an empty buffer, so what it yields is what the record parses to. */
module Handshake {
  import opened CString
  import opened Trim
  import opened Message
  import opened Session

  datatype ClientPhase = AwaitWelcome | AwaitPrompt | AwaitReply | Succeeded | Failed

  datatype ServerPhase = Accepting | Welcoming | Prompting | AwaitNick | Denying | Helloing(nickname: string)
                       | Admitted(nickname: string) | Closed

  datatype Peers = Peers(client: ClientPhase, server: ServerPhase, toClient: seq<string>, toServer: seq<string>)

  const START: Peers := Peers(AwaitWelcome, Accepting, [], [])

  /** A record that carries a text of the server. */
  function Record(kind: Kind, text: string): string {
    Encode(C2HMessage(kind, "", text))
  }

  const WELCOME: string := "Welcome to C2hat!"
  const PROMPT: string := "Please enter a nickname:"
  const LIMIT: string := "connection limits reached"
  const TIMEOUT: string := "Authentication timeout expired!"
  const REFUSED: string := "Authentication failed"
  /** The text ends in `%&`, which no conversion of printf starts with; it is taken to be copied. */
  const INVALID: string := "Nicknames must start with a letter and contain 2-15 latin characters and !@#$%&"

  function HelloText(nickname: string): string {
    "Hello " + nickname + "!"
  }

  /** The record the client sends for the name it was given. */
  function NickRecord(username: string): string {
    Encode(C2HMessage(Nick, "", Take(username, BUFFER_SIZE - 1)))
  }

  /** The name that reaches the server: what fits the record behind its prefix, trimmed. */
  function Offered(username: string): string {
    Trimmed(Take(username, BUFFER_SIZE - 7), BLANKS)
  }

  /** What can happen. The server finds the limit reached or not, the name taken or not; either side's
      patience may run out where it has some. */
  datatype Event =
    | Accept(full: bool)
    | SendWelcome
    | SendPrompt
    | ReadNick(taken: bool)
    | ServerTimeout
    | ServerSeesClose
    | Deny
    | SendHello
    | ClientRead
    | ClientTimeout
    | ClientSeesClose

  predicate Waiting(client: ClientPhase) {
    client.AwaitWelcome? || client.AwaitPrompt? || client.AwaitReply?
  }

  /** The hello is printed as a format once more, so a name with a `%` has no defined outcome there. */
  predicate Possible(p: Peers, e: Event) {
    match e
    case Accept(_) => p.server.Accepting?
    case SendWelcome => p.server.Welcoming?
    case SendPrompt => p.server.Prompting?
    case ReadNick(_) => p.server.AwaitNick? && p.toServer != []
    case ServerTimeout => p.server.AwaitNick?
    case ServerSeesClose => p.server.AwaitNick? && p.toServer == [] && p.client.Failed?
    case Deny => p.server.Denying?
    case SendHello => p.server.Helloing? && '%' !in p.server.nickname
    case ClientRead => Waiting(p.client) && p.toClient != []
    case ClientTimeout => p.client.AwaitWelcome?
    case ClientSeesClose => Waiting(p.client) && p.toClient == [] && p.server.Closed?
  }

  function Tell(p: Peers, kind: Kind, text: string, next: ServerPhase): Peers {
    p.(toClient := p.toClient + [Record(kind, text)], server := next)
  }

  function OnNick(p: Peers, message: Outcome, taken: bool): Peers {
    match message
    case Got(m) =>
      if !m.kind.Nick? then p
      else if !ValidNickname(m.content) then Tell(p, Err, INVALID, Denying)
      else if taken then p.(server := Denying)
      else p.(server := Helloing(m.content))
    case _ => p.(server := Denying)
  }

  function OnMessage(p: Peers, message: Outcome, username: string): Peers {
    match message
    case Got(m) =>
      (match p.client
       case AwaitWelcome => if !m.kind.Ok? || |username| < 2 then p.(client := Failed) else p.(client := AwaitPrompt)
       case AwaitPrompt =>
         if !m.kind.Nick? then p.(client := Failed)
         else p.(client := AwaitReply, toServer := p.toServer + [NickRecord(username)])
       case AwaitReply => p.(client := if m.kind.Ok? then Succeeded else Failed)
       case _ => p)
    case _ => p.(client := Failed)
  }

  function After(p: Peers, e: Event, username: string): Peers
    requires Possible(p, e)
  {
    match e
    case Accept(full) => if full then Tell(p, Err, LIMIT, Closed) else p.(server := Welcoming)
    case SendWelcome => Tell(p, Ok, WELCOME, Prompting)
    case SendPrompt => Tell(p, Nick, PROMPT, AwaitNick)
    case ReadNick(taken) => OnNick(p.(toServer := p.toServer[1..]), Parse(p.toServer[0]), taken)
    case ServerTimeout => Tell(p, Err, TIMEOUT, Denying)
    case ServerSeesClose => p.(server := Denying)
    case Deny => Tell(p, Err, REFUSED, Closed)
    case SendHello => Tell(p, Ok, HelloText(p.server.nickname), Admitted(p.server.nickname))
    case ClientRead => OnMessage(p.(toClient := p.toClient[1..]), Parse(p.toClient[0]), username)
    case ClientTimeout => p.(client := Failed)
    case ClientSeesClose => p.(client := Failed)
  }

  /** The peers after the events, each of which must be possible when its turn comes. */
  predicate Reaches(p: Peers, events: seq<Event>, username: string, q: Peers)
    decreases |events|
  {
    if events == [] then q == p
    else Possible(p, events[0]) && Reaches(After(p, events[0], username), events[1..], username, q)
  }

  // ----- what the records say when they are read

  /** A record of a kind without a user is heard as that kind, with its content trimmed. */
  lemma {:induction false} Heard(kind: Kind, text: string)
    requires Known(kind) && !HasUser(kind) && text != "" && |text| < 200
    ensures Parse(Record(kind, text)) == Got(C2HMessage(kind, "", Trimmed(text, BLANKS)))
  {
    hide Parse, Trimmed, Encode;
    var m := C2HMessage(kind, "", text);
    PlainFullText(m);
    EncodeIsFullText(m);
    ParsePlain(kind, text);
  }

  lemma {:induction false} PlainFullText(m: C2HMessage)
    requires m.user == "" && m.content != ""
    ensures FullText(m) == Prefix(m.kind) + ([' '] + m.content)
    ensures |m.content| < 200 ==> Fits(m)
  {
  }

  lemma {:induction false} TakeBehind(prefix: string, text: string, n: nat)
    requires |prefix| <= n
    ensures Take(prefix + text, n) == prefix + Take(text, n - |prefix|)
  {
  }

  lemma {:induction false} TakeTwice(text: string, m: nat, n: nat)
    requires n <= m
    ensures Take(Take(text, m), n) == Take(text, n)
  {
  }

  lemma {:induction false} NickHeard(username: string)
    requires username != ""
    ensures Parse(NickRecord(username)) == Got(C2HMessage(Nick, "", Offered(username)))
  {
    hide Parse, Trimmed, Encode;
    var m := C2HMessage(Nick, "", Take(username, BUFFER_SIZE - 1));
    PlainFullText(m);
    EncodeIsFullText(m);
    TakeBehind(Prefix(Nick), [' '] + m.content, BUFFER_SIZE - 1);
    TakeBehind([' '], m.content, BUFFER_SIZE - 6);
    TakeTwice(username, BUFFER_SIZE - 1, BUFFER_SIZE - 7);
    ParsePlain(Nick, Take(username, BUFFER_SIZE - 7));
  }

  // ----- every reachable state

  predicate Says(record: string, kind: Kind) {
    Parse(record).Got? && Parse(record).message.kind == kind
  }

  /** All of the records are heard as kinds in the given order. */
  predicate Spells(records: seq<string>, kinds: seq<Kind>) {
    |records| == |kinds| && forall i :: 0 <= i < |records| ==> Says(records[i], kinds[i])
  }

  /** What is under way to the client, by where both sides are. */
  predicate Expected(p: Peers) {
    match p.client
    case AwaitWelcome =>
      && p.toServer == []
      && (match p.server
          case Accepting => p.toClient == []
          case Welcoming => p.toClient == []
          case Prompting => Spells(p.toClient, [Ok])
          case AwaitNick => Spells(p.toClient, [Ok, Nick])
          case Denying => Spells(p.toClient, [Ok, Nick, Err])
          case Closed => Spells(p.toClient, [Ok, Nick, Err, Err]) || Spells(p.toClient, [Err])
          case _ => false)
    case AwaitPrompt =>
      && p.toServer == []
      && (match p.server
          case Prompting => p.toClient == []
          case AwaitNick => Spells(p.toClient, [Nick])
          case Denying => Spells(p.toClient, [Nick, Err])
          case Closed => Spells(p.toClient, [Nick, Err, Err])
          case _ => false)
    case AwaitReply =>
      (match p.server
       case AwaitNick => p.toClient == [] && p.toServer != []
       case Denying => p.toClient == [] || Spells(p.toClient, [Err])
       case Closed => Spells(p.toClient, [Err]) || Spells(p.toClient, [Err, Err])
       case Helloing(_) => p.toClient == []
       case Admitted(_) => Spells(p.toClient, [Ok])
       case _ => false)
    case Succeeded => p.server.Admitted?
    case Failed =>
      && !p.server.Helloing? && !p.server.Admitted?
      && (p.server.Denying? || p.server.Closed? || p.toServer == [])
  }

  /** The records to the server are the client's one, and a name that was let in is that one's. */
  predicate OneName(p: Peers, username: string) {
    && (p.toServer != [] ==> p.toServer == [NickRecord(username)] && |username| >= 2)
    && (p.client.AwaitPrompt? || p.client.AwaitReply? || p.client.Succeeded? ==> |username| >= 2)
    && (p.server.Helloing? || p.server.Admitted? ==>
          p.server.nickname == Offered(username) && ValidNickname(p.server.nickname))
    && (p.server.Admitted? ==> '%' !in p.server.nickname)
  }

  predicate Consistent(p: Peers, username: string) {
    Expected(p) && OneName(p, username)
  }

  lemma {:induction false} SpellsMore(records: seq<string>, kinds: seq<Kind>, record: string, kind: Kind)
    requires Spells(records, kinds) && Says(record, kind)
    ensures Spells(records + [record], kinds + [kind])
  {
    hide Says;
  }

  lemma {:induction false} SpellsRest(records: seq<string>, kinds: seq<Kind>)
    requires Spells(records, kinds) && records != []
    ensures Says(records[0], kinds[0]) && Spells(records[1..], kinds[1..])
  {
    hide Says;
  }

  lemma {:induction false} RecordSays(kind: Kind, text: string)
    requires Known(kind) && !HasUser(kind) && text != "" && |text| < 200
    ensures Says(Record(kind, text), kind)
  {
    hide Parse, Record, Trimmed;
    Heard(kind, text);
  }

  /** The server's word goes to the end of the channel. */
  lemma {:induction false} TellKeeps(p: Peers, username: string, kind: Kind, text: string, next: ServerPhase,
                                     before: seq<Kind>, after: seq<Kind>)
    requires Known(kind) && !HasUser(kind) && text != "" && |text| < 200
    requires Spells(p.toClient, before) && after == before + [kind]
    ensures Spells(Tell(p, kind, text, next).toClient, after)
  {
    hide Says, Record;
    RecordSays(kind, text);
    SpellsMore(p.toClient, before, Record(kind, text), kind);
  }

  lemma {:induction false} NothingSpelled(records: seq<string>)
    ensures records == [] <==> Spells(records, [])
  {
  }

  lemma {:induction false} OpeningKeeps(p: Peers, e: Event, username: string)
    requires Consistent(p, username) && Possible(p, e) && (e.Accept? || e.SendWelcome? || e.SendPrompt?)
    ensures Consistent(After(p, e, username), username)
  {
    hide Parse, Record, Spells, Says, ValidNickname;
    NothingSpelled(p.toClient);
    match e
    case Accept(full) =>
      if full && p.client.AwaitWelcome? {
        TellKeeps(p, username, Err, LIMIT, Closed, [], [Err]);
      }
    case SendWelcome =>
      if p.client.AwaitWelcome? {
        TellKeeps(p, username, Ok, WELCOME, Prompting, [], [Ok]);
      }
    case SendPrompt =>
      if p.client.AwaitWelcome? {
        TellKeeps(p, username, Nick, PROMPT, AwaitNick, [Ok], [Ok, Nick]);
      } else if p.client.AwaitPrompt? {
        TellKeeps(p, username, Nick, PROMPT, AwaitNick, [], [Nick]);
      }
  }

  lemma {:induction false} RefusingKeeps(p: Peers, e: Event, username: string)
    requires Consistent(p, username) && Possible(p, e) && (e.ServerTimeout? || e.ServerSeesClose?)
    ensures Consistent(After(p, e, username), username)
  {
    hide Parse, Record, Spells, Says, ValidNickname;
    NothingSpelled(p.toClient);
    if e.ServerTimeout? {
      if p.client.AwaitWelcome? {
        TellKeeps(p, username, Err, TIMEOUT, Denying, [Ok, Nick], [Ok, Nick, Err]);
      } else if p.client.AwaitPrompt? {
        TellKeeps(p, username, Err, TIMEOUT, Denying, [Nick], [Nick, Err]);
      } else if p.client.AwaitReply? {
        TellKeeps(p, username, Err, TIMEOUT, Denying, [], [Err]);
      }
    }
  }

  lemma {:induction false} DenyKeeps(p: Peers, username: string)
    requires Consistent(p, username) && Possible(p, Deny)
    ensures Consistent(After(p, Deny, username), username)
  {
    hide Parse, Record, Spells, Says, ValidNickname;
    NothingSpelled(p.toClient);
    if p.client.AwaitWelcome? {
      TellKeeps(p, username, Err, REFUSED, Closed, [Ok, Nick, Err], [Ok, Nick, Err, Err]);
    } else if p.client.AwaitPrompt? {
      TellKeeps(p, username, Err, REFUSED, Closed, [Nick, Err], [Nick, Err, Err]);
    } else if p.client.AwaitReply? {
      if p.toClient == [] {
        TellKeeps(p, username, Err, REFUSED, Closed, [], [Err]);
      } else {
        TellKeeps(p, username, Err, REFUSED, Closed, [Err], [Err, Err]);
      }
    }
  }

  lemma {:induction false} HelloKeeps(p: Peers, username: string)
    requires Consistent(p, username) && Possible(p, SendHello)
    ensures Consistent(After(p, SendHello, username), username)
  {
    hide Parse, Record, Spells, Says, ValidNickname, HelloText, Offered, NickRecord;
    assert p.client.AwaitReply?;
    NothingSpelled(p.toClient);
    ValidNicknameLength(p.server.nickname);
    HelloTextLength(p.server.nickname);
    TellKeeps(p, username, Ok, HelloText(p.server.nickname), Admitted(p.server.nickname), [], [Ok]);
  }

  lemma {:induction false} ReadNickKeeps(p: Peers, taken: bool, username: string)
    requires Consistent(p, username) && Possible(p, ReadNick(taken))
    ensures Consistent(After(p, ReadNick(taken), username), username)
  {
    hide Parse, Record, Spells, Says, ValidNickname, Offered, NickRecord;
    NothingSpelled(p.toClient);
    NickHeard(username);
    var q := p.(toServer := p.toServer[1..]);
    TellKeeps(q, username, Err, INVALID, Denying, [], [Err]);
  }

  lemma {:induction false} ClientReadKeeps(p: Peers, username: string)
    requires Consistent(p, username) && Possible(p, ClientRead)
    ensures Consistent(After(p, ClientRead, username), username)
  {
    hide Parse, Record, Spells, ValidNickname, Offered, NickRecord;
    var rest := p.toClient[1..];
    NothingSpelled(p.toClient);
    NothingSpelled(rest);
    forall kinds | Spells(p.toClient, kinds)
      ensures kinds != [] && Says(p.toClient[0], kinds[0]) && Spells(rest, kinds[1..])
    {
      SpellsLength(p.toClient, kinds);
      SpellsRest(p.toClient, kinds);
    }
    assert [Ok][1..] == [] && [Err][1..] == [] && [Nick][1..] == [];
    assert [Ok, Nick][1..] == [Nick] && [Nick, Err][1..] == [Err] && [Err, Err][1..] == [Err];
    assert [Ok, Nick, Err][1..] == [Nick, Err] && [Nick, Err, Err][1..] == [Err, Err];
    assert [Ok, Nick, Err, Err][1..] == [Nick, Err, Err];
  }

  lemma {:induction false} SpellsLength(records: seq<string>, kinds: seq<Kind>)
    requires Spells(records, kinds)
    ensures |records| == |kinds|
  {
  }

  lemma {:induction false} EventKeeps(p: Peers, e: Event, username: string)
    requires Consistent(p, username) && Possible(p, e)
    ensures Consistent(After(p, e, username), username)
  {
    match e
    case ReadNick(taken) => ReadNickKeeps(p, taken, username);
    case Deny => DenyKeeps(p, username);
    case SendHello => HelloKeeps(p, username);
    case ClientRead => ClientReadKeeps(p, username);
    case ClientTimeout => ClientLeaves(p, e, username);
    case ClientSeesClose => ClientLeaves(p, e, username);
    case ServerTimeout => RefusingKeeps(p, e, username);
    case ServerSeesClose => RefusingKeeps(p, e, username);
    case _ => OpeningKeeps(p, e, username);
  }

  lemma {:induction false} ClientLeaves(p: Peers, e: Event, username: string)
    requires Consistent(p, username) && Possible(p, e) && (e.ClientTimeout? || e.ClientSeesClose?)
    ensures Consistent(After(p, e, username), username)
  {
    hide Parse, Record, Spells, Says, ValidNickname, Offered, NickRecord;
    assert After(p, e, username) == p.(client := Failed);
    FailedKeeps(p, username);
  }

  lemma {:induction false} FailedKeeps(p: Peers, username: string)
    requires Consistent(p, username) && (p.client.AwaitWelcome? || p.server.Closed?)
    ensures Consistent(p.(client := Failed), username)
  {
    hide Spells, ValidNickname, Offered, NickRecord;
  }

  lemma {:induction false} ReachableIsConsistent(p: Peers, events: seq<Event>, username: string, q: Peers)
    requires Consistent(p, username) && Reaches(p, events, username, q)
    ensures Consistent(q, username)
    decreases |events|
  {
    hide Consistent, After, Possible;
    if events != [] {
      EventKeeps(p, events[0], username);
      ReachableIsConsistent(After(p, events[0], username), events[1..], username, q);
    }
  }

  /** Both sides wait, and nothing is under way that either could read. */
  predicate Stuck(p: Peers) {
    Waiting(p.client) && p.toClient == [] && ((p.server.AwaitNick? && p.toServer == []) || p.server.Admitted?)
  }

  /** Long enough for the client, and valid as the server gets it. */
  predicate Acceptable(username: string) {
    |username| >= 2 && ValidNickname(Offered(username)) && '%' !in Offered(username)
  }

  lemma {:induction false} ConsistentAgrees(p: Peers, username: string)
    requires Consistent(p, username)
    ensures !Waiting(p.client) ==> (p.client.Succeeded? <==> p.server.Admitted?)
    ensures p.server.Admitted? ==> p.client.Succeeded? || (p.client.AwaitReply? && Spells(p.toClient, [Ok]))
    ensures p.server.Helloing? ==> p.client.AwaitReply?
    ensures p.server.Admitted? ==>
      p.server.nickname == Offered(username) && Acceptable(username)
  {
    hide Spells, ValidNickname, Offered, NickRecord;
  }

  lemma {:induction false} ConsistentMoves(p: Peers, username: string)
    requires Consistent(p, username)
    ensures !Stuck(p)
  {
    hide ValidNickname, Offered, NickRecord, Says;
  }

  /** The two sides never wait for each other. Once the client is done it has authenticated exactly when the
      server has let it in, under the name that was offered; and when the server has let it in, the client
      is through or has nothing but the ok left to read. */
  lemma {:induction false} Agreement(events: seq<Event>, username: string, p: Peers)
    requires Reaches(START, events, username, p)
    ensures !Stuck(p)
    ensures !Waiting(p.client) ==> (p.client.Succeeded? <==> p.server.Admitted?)
    ensures p.server.Admitted? ==> p.client.Succeeded? || (p.client.AwaitReply? && Spells(p.toClient, [Ok]))
    ensures p.server.Helloing? ==> p.client.AwaitReply?
    ensures p.server.Admitted? ==> p.server.nickname == Offered(username) && Acceptable(username)
  {
    hide Consistent, Reaches, Stuck, ValidNickname, Offered;
    StartIsConsistent(username);
    ReachableIsConsistent(START, events, username, p);
    ConsistentAgrees(p, username);
    ConsistentMoves(p, username);
  }

  lemma {:induction false} StartIsConsistent(username: string)
    ensures Consistent(START, username)
  {
  }

  /** A client can get in at all exactly when it takes its name as long enough and what reaches the
      server of it is a valid nickname. */
  lemma {:induction false} CanSucceed(username: string)
    ensures (exists events, p :: Reaches(START, events, username, p) && p.client.Succeeded?) <==> Acceptable(username)
  {
    hide Reaches, ValidNickname, Offered;
    if Acceptable(username) {
      var events, p := UndisturbedRun(username);
    }
    forall events, p | Reaches(START, events, username, p) && p.client.Succeeded?
      ensures Acceptable(username)
    {
      Agreement(events, username, p);
    }
  }

  /** The exchange up to the moment the client has answered the prompt. */
  lemma {:induction false} RunToNick(username: string) returns (events: seq<Event>, p: Peers)
    requires Acceptable(username)
    ensures Reaches(START, events, username, p)
    ensures p == Peers(AwaitReply, AwaitNick, [], [NickRecord(username)])
  {
    hide Parse, Record, ValidNickname, Offered, NickRecord, Reaches, HelloText, Says;
    var w, q := Record(Ok, WELCOME), Record(Nick, PROMPT);
    RecordSays(Ok, WELCOME);
    RecordSays(Nick, PROMPT);
    events, p := [], START;
    ReachesNow(p, username);
    events, p := OneMore(events, p, Accept(false), username, Peers(AwaitWelcome, Welcoming, [], []));
    events, p := OneMore(events, p, SendWelcome, username, Peers(AwaitWelcome, Prompting, [w], []));
    OkIsTaken(p, w, username);
    events, p := OneMore(events, p, ClientRead, username, Peers(AwaitPrompt, Prompting, [], []));
    events, p := OneMore(events, p, SendPrompt, username, Peers(AwaitPrompt, AwaitNick, [q], []));
    PromptIsTaken(p, q, username);
    events, p := OneMore(events, p, ClientRead, username, Peers(AwaitReply, AwaitNick, [], [NickRecord(username)]));
  }

  /** Room, time and a free name: nothing disturbs the exchange. */
  lemma {:induction false} UndisturbedRun(username: string) returns (events: seq<Event>, p: Peers)
    requires Acceptable(username)
    ensures Reaches(START, events, username, p) && p.client.Succeeded?
  {
    hide Parse, Record, ValidNickname, Offered, NickRecord, Reaches, HelloText, Says;
    var n := Offered(username);
    var h := Record(Ok, HelloText(n));
    events, p := RunToNick(username);
    NickIsTaken(p, username);
    events, p := OneMore(events, p, ReadNick(false), username, Peers(AwaitReply, Helloing(n), [], []));
    events, p := OneMore(events, p, SendHello, username, Peers(AwaitReply, Admitted(n), [h], []));
    ValidNicknameLength(n);
    HelloTextLength(n);
    RecordSays(Ok, HelloText(n));
    OkIsTaken(p, h, username);
    events, p := OneMore(events, p, ClientRead, username, Peers(Succeeded, Admitted(n), [], []));
  }

  /** The client reads what is under way to it for as long as it waits for something. */
  function ReadAll(p: Peers, username: string): (q: Peers)
    decreases |p.toClient|
  {
    if Waiting(p.client) && p.toClient != [] then ReadAll(After(p, ClientRead, username), username) else p
  }

  lemma {:induction false} ReadAllReaches(p: Peers, username: string) returns (events: seq<Event>)
    ensures (forall e <- events :: e == ClientRead) && Reaches(p, events, username, ReadAll(p, username))
    decreases |p.toClient|
  {
    hide OnMessage, Parse, Reaches;
    events := [];
    if Waiting(p.client) && p.toClient != [] {
      var next := After(p, ClientRead, username);
      ReadShortens(p, username);
      events := ReadAllReaches(next, username);
      ReachesFrom(p, ClientRead, events, username, ReadAll(next, username));
      events := [ClientRead] + events;
    } else {
      ReachesNow(p, username);
    }
  }

  lemma {:induction false} ReadShortens(p: Peers, username: string)
    requires Possible(p, ClientRead)
    ensures After(p, ClientRead, username).toClient == p.toClient[1..]
  {
    hide Parse, NickRecord;
  }

  lemma {:induction false} ReachesFrom(p: Peers, e: Event, events: seq<Event>, username: string, q: Peers)
    requires Possible(p, e) && Reaches(After(p, e, username), events, username, q)
    ensures Reaches(p, [e] + events, username, q)
  {
    hide After, Possible;
    assert ([e] + events)[0] == e && ([e] + events)[1..] == events;
  }

  /** One read by a client that waits for the prompt, or for the reply to its name. */
  lemma {:induction false} ReadOnce(p: Peers, username: string)
    requires (p.client.AwaitPrompt? || p.client.AwaitReply?) && p.toClient != []
    ensures var q := p.(toClient := p.toClient[1..]); var said := p.toClient[0];
      ReadAll(p, username) == ReadAll(
        if p.client.AwaitReply? then q.(client := if Says(said, Ok) then Succeeded else Failed)
        else if Says(said, Nick) then q.(client := AwaitReply, toServer := p.toServer + [NickRecord(username)])
        else q.(client := Failed), username)
  {
    hide Parse, NickRecord;
  }

  lemma {:induction false} ReadNone(p: Peers, username: string)
    requires !Waiting(p.client) || p.toClient == []
    ensures ReadAll(p, username) == p
  {
  }

  /** Client_authenticate on the records that arrive one by one; none left is a closed connection. It does what
      the client of the exchange does from the prompt on, whatever the server is at. */
  method AuthenticateClient(username: string, records: seq<string>, ghost server: ServerPhase)
    returns (ok: bool, sent: seq<string>)
    ensures |username| < 2 ==> !ok && sent == []
    ensures |username| >= 2 ==>
      var q := ReadAll(Peers(AwaitPrompt, server, records, []), username);
      (ok <==> q.client.Succeeded?) && sent == q.toServer
  {
    hide Parse, NickRecord, ReadAll;
    ghost var p := Peers(AwaitPrompt, server, records, []);
    ok, sent := false, [];
    if |username| < 2 {
      return;
    }
    if |records| == 0 {
      ReadNone(p, username);
      return;
    }
    ReadOnce(p, username);
    var response := Parse(records[0]);
    if !response.Got? || response.message.kind != Nick {
      ReadNone(p.(toClient := records[1..], client := Failed), username);
      return;
    }
    sent := sent + [NickRecord(username)];
    p := p.(toClient := records[1..], client := AwaitReply, toServer := sent);
    if |records| == 1 {
      ReadNone(p, username);
      return;
    }
    ReadOnce(p, username);
    response := Parse(records[1]);
    ok := response.Got? && response.message.kind == Ok;
    ReadNone(p.(toClient := records[1..][1..], client := if ok then Succeeded else Failed), username);
  }

  lemma {:induction false} OkIsTaken(p: Peers, record: string, username: string)
    requires Possible(p, ClientRead) && p.toClient == [record] && Says(record, Ok) && |username| >= 2
    requires p.client.AwaitWelcome? || p.client.AwaitReply?
    ensures After(p, ClientRead, username)
         == p.(client := if p.client.AwaitWelcome? then AwaitPrompt else Succeeded, toClient := [])
  {
    hide Parse;
  }

  lemma {:induction false} PromptIsTaken(p: Peers, record: string, username: string)
    requires Possible(p, ClientRead) && p.client.AwaitPrompt?
    requires p.toClient == [record] && Says(record, Nick) && p.toServer == []
    ensures After(p, ClientRead, username)
         == p.(client := AwaitReply, toClient := [], toServer := [NickRecord(username)])
  {
    hide Parse, NickRecord;
  }

  lemma {:induction false} NickIsTaken(p: Peers, username: string)
    requires Possible(p, ReadNick(false)) && p.toServer == [NickRecord(username)]
    requires username != "" && ValidNickname(Offered(username))
    ensures After(p, ReadNick(false), username) == p.(server := Helloing(Offered(username)), toServer := [])
  {
    hide Parse, NickRecord, Offered, ValidNickname;
    NickHeard(username);
  }

  lemma {:induction false} OneMore(events: seq<Event>, p: Peers, e: Event, username: string, q: Peers)
    returns (events': seq<Event>, p': Peers)
    requires Reaches(START, events, username, p) && Possible(p, e) && After(p, e, username) == q
    ensures p' == q && Reaches(START, events', username, p')
  {
    hide Reaches, After;
    events', p' := events + [e], q;
    ReachesMore(START, events, username, p, e);
  }

  lemma {:induction false} ReachesMore(p: Peers, events: seq<Event>, username: string, q: Peers, e: Event)
    requires Reaches(p, events, username, q) && Possible(q, e)
    ensures Reaches(p, events + [e], username, After(q, e, username))
    decreases |events|
  {
    hide After, Possible;
    if events == [] {
      assert (events + [e])[1..] == [];
    } else {
      assert (events + [e])[1..] == events[1..] + [e];
      ReachesMore(After(p, events[0], username), events[1..], username, q, e);
    }
  }

  lemma {:induction false} HelloTextLength(n: string)
    requires |n| <= 15
    ensures 0 < |HelloText(n)| < 200
  {
  }

  lemma {:induction false} ReachesNow(p: Peers, username: string)
    ensures Reaches(p, [], username, p)
  {
  }
}
