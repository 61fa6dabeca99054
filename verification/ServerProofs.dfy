/** What every run of the server keeps. */
module ServerProofs {
  import opened Wrappers
  import opened Sequences
  import opened Message
  import opened Framing
  import opened Session
  import opened Server

  // ----- the client list

  lemma {:induction false} SessionKeepsPhase(s: State, step: Step)
    requires OfSession(step) && Enabled(s, step)
    ensures step.id in s.conns && s.conns[step.id].phase != Gone
    ensures Entry(s, s.conns[step.id], step).phase != Gone
  {
    hide BroadcastOf, Handle, Get, Reads, Pushes, ValidNickname, Taken, AllDefined, Messages;
  }

  lemma {:induction false} SessionKeepsList(s: State, step: Step, max: nat)
    requires ListMatchesConns(s) && OfSession(step) && Enabled(s, step)
    ensures ListMatchesConns(Apply(s, step, max))
  {
    hide Enabled, Entry, Messages;
    SessionKeepsPhase(s, step);
  }

  lemma {:induction false} CutPlaces(clients: seq<Id>, id: Id)
    requires Distinct(clients) && id in clients
    ensures var i := Place(clients, id); var cut := clients[..i] + clients[i + 1..];
      && Distinct(cut) && |cut| == |clients| - 1
      && (forall k :: 0 <= k < |cut| ==> cut[k] == clients[if k < i then k else k + 1])
      && (forall x :: x in cut <==> x in clients && x != id)
  {
    var i := Place(clients, id);
    var cut := clients[..i] + clients[i + 1..];
    assert forall k :: 0 <= k < |cut| ==> cut[k] == clients[if k < i then k else k + 1];
    forall x | x in clients && x != id
      ensures x in cut
    {
      var k :| 0 <= k < |clients| && clients[k] == x;
      assert cut[if k < i then k else k - 1] == x;
    }
  }

  lemma {:induction false} DropKeepsList(s: State, id: Id, max: nat)
    requires ListMatchesConns(s) && Enabled(s, Drop(id))
    ensures ListMatchesConns(Apply(s, Drop(id), max))
  {
    hide Apply, Enabled, Place, After;
    DropIs(s, id, max);
    CutPlaces(s.clients, id);
    DropCursor(s, id, max);
  }

  lemma {:induction false} DropCursor(s: State, id: Id, max: nat)
    requires Enabled(s, Drop(id)) && ListMatchesConns(s)
    ensures var s' := Apply(s, Drop(id), max);
      && (s'.clients == [] ==> s'.current == None)
      && (s'.current.Some? ==> s'.current.value in s'.conns)
  {
    hide Distinct;
    assert |s.clients| == 1 ==> Place(s.clients, id) == 0;
  }

  lemma {:induction false} AdmitKeepsList(s: State, id: Id, max: nat)
    requires ListMatchesConns(s) && Enabled(s, Admit(id))
    ensures ListMatchesConns(Apply(s, Admit(id), max))
  {
    var s' := Apply(s, Admit(id), max);
    assert s'.clients[|s.clients|] == id;
    assert forall x :: x in s.clients ==> x in s'.clients;
  }

  /** The same list and the same sessions, but for what they have received. */
  ghost predicate Alike(s: State, s': State) {
    && s'.clients == s.clients && s'.conns.Keys == s.conns.Keys
    && forall id :: id in s.conns ==> s'.conns[id].(inbox := s.conns[id].inbox) == s.conns[id]
  }

  lemma {:induction false} CursorMoves(s: State, step: Step, max: nat)
    requires (step.CheckLimit? || step.Pop? || step.Next?) && Enabled(s, step)
    ensures Alike(s, Apply(s, step, max))
    ensures var s' := Apply(s, step, max);
      && (s.clients == [] ==> s'.current == s.current || s'.current == None)
      && (s'.current.Some? ==> s'.current == s.current || s'.current.value in s.clients)
  {
    hide Place;
  }

  lemma {:induction false} AlikeKeepsList(s: State, s': State)
    requires ListMatchesConns(s) && Alike(s, s') && (s.clients == [] ==> s'.current == None)
    requires s'.current.Some? ==> s'.current == s.current || s'.current.value in s.clients
    ensures ListMatchesConns(s')
  {
    forall id | id in s'.conns
      ensures s'.conns[id].phase == s.conns[id].phase
    {
    }
  }

  lemma {:induction false} AlikeKeepsApart(s: State, s': State)
    requires NicknamesApart(s) && Alike(s, s')
    ensures NicknamesApart(s')
  {
    hide Apart;
    forall i, j | 0 <= i < j < |s'.clients|
      ensures Apart(s', s'.clients[i], s'.clients[j])
    {
      assert Apart(s, s.clients[i], s.clients[j]);
      AlikeApart(s, s', s.clients[i], s.clients[j]);
    }
  }

  lemma {:induction false} AlikeApart(s: State, s': State, a: Id, b: Id)
    requires Alike(s, s') && Apart(s, a, b)
    ensures Apart(s', a, b)
  {
    assert a in s'.conns <==> a in s.conns;
    assert b in s'.conns <==> b in s.conns;
  }

  lemma {:induction false} AlikeKeepsSessions(s: State, s': State)
    requires SessionsGood(s) && Alike(s, s')
    ensures SessionsGood(s')
  {
    hide Opened, Closed, ValidNickname;
    forall id | id in s'.conns
      ensures Named(s'.conns[id]) && TraceShape(s'.conns[id])
    {
      assert id in s.conns;
      var c, c' := s.conns[id], s'.conns[id];
      assert c'.(inbox := c.inbox) == c;
    }
  }

  lemma {:induction false} StepKeepsList(s: State, step: Step, max: nat)
    requires ListMatchesConns(s) && Enabled(s, step)
    ensures ListMatchesConns(Apply(s, step, max))
  {
    hide Enabled, Apply, Alike;
    if OfSession(step) {
      SessionKeepsList(s, step, max);
    } else if step.Admit? {
      AdmitKeepsList(s, step.id, max);
    } else if step.Drop? {
      DropKeepsList(s, step.id, max);
    } else {
      CursorMoves(s, step, max);
      AlikeKeepsList(s, Apply(s, step, max));
    }
  }

  // ----- nicknames

  /** Two entries of the list, by position. */
  lemma {:induction false} TakenBy(s: State, i: nat)
    requires i < |s.clients| && s.clients[i] in s.conns
    ensures Taken(s, s.conns[s.clients[i]].nickname)
  {
  }

  lemma {:induction false} AnswerIsFresh(s: State, c: Conn, message: Outcome)
    requires c.nickname == ""
    ensures var c' := Answered(s, c, message); c'.nickname == "" || (!Taken(s, c'.nickname) && ValidNickname(c'.nickname))
  {
    hide Taken, ValidNickname;
  }

  /** A session's step keeps its nickname, or picks one that nobody on the list has. */
  lemma {:induction false} EntryNickname(s: State, step: Step)
    requires OfSession(step) && Enabled(s, step) && Named(s.conns[step.id])
    ensures var c, c' := s.conns[step.id], Entry(s, s.conns[step.id], step);
      c'.nickname == c.nickname || !Taken(s, c'.nickname)
  {
    hide BroadcastOf, Handle, Get, Reads, Pushes, ValidNickname, Taken, AllDefined, Messages, Answered;
    if step.Authenticate? {
      AnswerIsFresh(s, s.conns[step.id], Get(Arrived(step.record)).0);
    }
  }

  lemma {:induction false} SessionKeepsApart(s: State, step: Step, max: nat)
    requires ListMatchesConns(s) && NicknamesApart(s) && OfSession(step) && Enabled(s, step)
    requires Named(s.conns[step.id])
    ensures NicknamesApart(Apply(s, step, max))
  {
    hide Apply, Enabled, Entry, Messages, Named, Taken;
    SessionKeepsPhase(s, step);
    EntryNickname(s, step);
    SessionIs(s, step, max);
    var s' := Apply(s, step, max);
    forall i, j | 0 <= i < j < |s'.clients|
      ensures Apart(s', s'.clients[i], s'.clients[j])
    {
      assert Apart(s, s.clients[i], s.clients[j]);
      TakenBy(s, i);
      TakenBy(s, j);
    }
  }

  lemma {:induction false} SessionIs(s: State, step: Step, max: nat)
    requires OfSession(step) && Enabled(s, step)
    ensures step.id in s.conns
    ensures var s' := Apply(s, step, max);
      s'.clients == s.clients && s'.current == s.current && s'.conns == s.conns[step.id := Entry(s, s.conns[step.id], step)]
  {
    hide Entry, Messages;
  }

  lemma {:induction false} AdmitKeepsApart(s: State, id: Id, max: nat)
    requires ListMatchesConns(s) && NicknamesApart(s) && Enabled(s, Admit(id))
    ensures NicknamesApart(Apply(s, Admit(id), max))
  {
    hide Apart;
    var s' := Apply(s, Admit(id), max);
    forall i, j | 0 <= i < j < |s'.clients|
      ensures Apart(s', s'.clients[i], s'.clients[j])
    {
      assert s'.clients[i] == s.clients[i];
      if j < |s.clients| {
        assert Apart(s, s.clients[i], s.clients[j]);
        SameNicknames(s, s', s.clients[i], s.clients[j]);
      } else {
        NamelessIsApart(s', s'.clients[i], id);
      }
    }
  }

  lemma {:induction false} NamelessIsApart(s: State, a: Id, b: Id)
    requires b in s.conns && s.conns[b].nickname == ""
    ensures Apart(s, a, b)
  {
  }

  lemma {:induction false} StepKeepsApart(s: State, step: Step, max: nat)
    requires ListMatchesConns(s) && NicknamesApart(s) && SessionsGood(s) && Enabled(s, step)
    ensures NicknamesApart(Apply(s, step, max))
  {
    hide NicknamesApart, ListMatchesConns, Apply, Alike, Named, TraceShape;
    if OfSession(step) {
      SessionKeepsPhase(s, step);
      SessionKeepsApart(s, step, max);
    } else if step.Admit? {
      AdmitKeepsApart(s, step.id, max);
    } else if step.Drop? {
      DropKeepsApart(s, step.id, max);
    } else {
      CursorMoves(s, step, max);
      AlikeKeepsApart(s, Apply(s, step, max));
    }
  }

  lemma {:induction false} AdmittedIs(s: State, id: Id, max: nat)
    requires Enabled(s, Admit(id))
    ensures id !in s.conns
    ensures var s' := Apply(s, Admit(id), max);
      && s'.clients == s.clients + [id] && s'.conns == s.conns[id := NEW_CONN] && s'.pass == s.pass
      && s'.queue == s.queue && s'.popped == s.popped
      && s'.current == if s.clients == [] then Some(id) else s.current
  {
  }

  lemma {:induction false} NextIs(s: State, max: nat)
    requires Enabled(s, Next)
    ensures s.pass.Passing?
    ensures s.current.None? ==> Apply(s, Next, max) == s.(pass := Done(s.pass.got))
    ensures s.current.Some? ==>
      var id := s.current.value; var s' := Apply(s, Next, max);
      && id in s.clients && id in s.conns
      && s'.clients == s.clients && s'.current == After(s.clients, Place(s.clients, id) + 1)
      && s'.popped == s.popped && s'.queue == s.queue
      && (s.conns[id].nickname == "" ==> s'.conns == s.conns && s'.pass == s.pass)
      && (s.conns[id].nickname != "" ==>
            && s'.conns == s.conns[id := s.conns[id].(inbox := s.conns[id].inbox + [s.pass.message])]
            && s'.pass == s.pass.(got := s.pass.got + [id]))
  {
    hide Place;
  }

  lemma {:induction false} DropIs(s: State, id: Id, max: nat)
    requires Enabled(s, Drop(id))
    ensures id in s.clients && id in s.conns
    ensures var i := Place(s.clients, id);
      && Apply(s, Drop(id), max).clients == s.clients[..i] + s.clients[i + 1..]
      && Apply(s, Drop(id), max).conns == s.conns[id := s.conns[id].(phase := Gone)]
    ensures var s' := Apply(s, Drop(id), max);
      && s'.current == (if Place(s.clients, id) == 0 then After(s'.clients, 0) else s.current)
      && s'.pass == s.pass && s'.queue == s.queue && s'.popped == s.popped
  {
    hide Place;
  }

  lemma {:induction false} SameNicknames(s: State, s': State, a: Id, b: Id)
    requires Apart(s, a, b)
    requires a in s'.conns ==> a in s.conns && s'.conns[a].nickname == s.conns[a].nickname
    requires b in s'.conns ==> b in s.conns && s'.conns[b].nickname == s.conns[b].nickname
    ensures Apart(s', a, b)
  {
  }

  lemma {:induction false} DropKeepsApart(s: State, id: Id, max: nat)
    requires ListMatchesConns(s) && NicknamesApart(s) && Enabled(s, Drop(id))
    ensures NicknamesApart(Apply(s, Drop(id), max))
  {
    hide Apply, Enabled, Place, Apart, NicknamesApart, ListMatchesConns, Distinct;
    DropIs(s, id, max);
    ListIsDistinct(s);
    CutPlaces(s.clients, id);
    CutKeepsApart(s, Apply(s, Drop(id), max), Place(s.clients, id), id);
  }

  lemma {:induction false} ListIsDistinct(s: State)
    requires ListMatchesConns(s)
    ensures Distinct(s.clients)
  {
  }

  lemma {:induction false} CutKeepsApart(s: State, s': State, p: nat, id: Id)
    requires NicknamesApart(s) && id in s.conns && s'.conns == s.conns[id := s.conns[id].(phase := Gone)]
    requires |s'.clients| == |s.clients| - 1
    requires forall k :: 0 <= k < |s'.clients| ==> s'.clients[k] == s.clients[if k < p then k else k + 1]
    ensures NicknamesApart(s')
  {
    hide Apart;
    forall i, j | 0 <= i < j < |s'.clients|
      ensures Apart(s', s'.clients[i], s'.clients[j])
    {
      var i', j' := if i < p then i else i + 1, if j < p then j else j + 1;
      assert Apart(s, s.clients[i'], s.clients[j']);
      SameNicknames(s, s', s.clients[i'], s.clients[j']);
    }
  }

  // ----- what a session enqueues

  lemma {:induction false} StandardBroadcast(nickname: string, content: string)
    requires ValidNickname(nickname) && |content| <= 100
    ensures Clip(nickname, content) == content
  {
    ValidNicknameLength(nickname);
  }

  /** The texts a receive enqueues are the session's own. */
  lemma {:induction false} PushesAreOwn(heard: seq<Outcome>, nickname: string, acks: nat -> bool, sent: nat)
    requires ValidNickname(nickname) && AllDefined(Handle(heard, nickname, acks, sent).0)
    ensures var ms := Pushes(Handle(heard, nickname, acks, sent).0);
      forall i :: 0 <= i < |ms| ==> ms[i].kind == Msg && ms[i].user == nickname
    decreases |heard|
  {
    hide BroadcastOf, ValidNickname;
    if heard != [] && heard[0].Got? {
      var m := heard[0].message;
      if Counts(heard[0]) && !m.kind.Quit? {
        if acks(sent) {
          var push := Push(BroadcastOf(Msg, nickname, m.content));
          assert Handle(heard, nickname, acks, sent).0[1] == push;
          BroadcastIs(Msg, nickname, m.content);
          AckAndPush([], push.message);
          assert [] + [Ack(true), push] == [Ack(true), push];
        } else {
          var rest := Handle(heard[1..], nickname, acks, sent + 1).0;
          assert ([Ack(false)] + rest)[1..] == rest;
          AllDefinedTail([Ack(false)] + rest);
          PushesAreOwn(heard[1..], nickname, acks, sent + 1);
          assert Pushes([Ack(false)] + rest) == Pushes(rest);
        }
      } else if !m.kind.Quit? {
        PushesAreOwn(heard[1..], nickname, acks, sent);
      }
    } else if heard != [] {
      assert [Fault][1..] == [];
    }
  }

  lemma {:induction false} AllDefinedTail(effects: seq<Effect>)
    requires AllDefined(effects) && effects != []
    ensures AllDefined(effects[1..])
  {
    forall i | 0 <= i < |effects| - 1
      ensures !effects[1..][i].Fault? && (effects[1..][i].Push? ==> effects[1..][i].message.Got?)
    {
      assert effects[1..][i] == effects[i + 1];
    }
  }

  lemma {:induction false} OpenedGrows(trace: seq<C2HMessage>, ms: seq<C2HMessage>, nickname: string)
    requires Opened(trace, nickname)
    requires forall i :: 0 <= i < |ms| ==> ms[i].kind == Msg && ms[i].user == nickname
    ensures Opened(trace + ms, nickname)
  {
  }

  lemma {:induction false} OpenedCloses(trace: seq<C2HMessage>, nickname: string)
    requires Opened(trace, nickname)
    ensures Closed(trace + [C2HMessage(Log, nickname, LEFT)], nickname)
  {
    var m := C2HMessage(Log, nickname, LEFT);
    assert (trace + [m])[..|trace + [m]| - 1] == trace;
  }

  lemma {:induction false} AnswerIsNamed(s: State, c: Conn, message: Outcome)
    requires c.phase == Authenticating && Named(c)
    ensures Named(Answered(s, c, message))
  {
    hide Taken;
    ValidNicknameIsNotEmpty(Answered(s, c, message).nickname);
  }

  lemma {:induction false} ValidNicknameIsNotEmpty(n: string)
    ensures ValidNickname(n) ==> n != ""
  {
  }

  lemma {:induction false} EntryIsNamed(s: State, step: Step)
    requires OfSession(step) && Enabled(s, step) && Named(s.conns[step.id])
    ensures Named(Entry(s, s.conns[step.id], step))
  {
    hide BroadcastOf, Handle, Get, Reads, Pushes, ValidNickname, Taken, AllDefined, Messages, Answered;
    if step.Authenticate? {
      AnswerIsNamed(s, s.conns[step.id], Get(Arrived(step.record)).0);
    }
  }

  lemma {:induction false} MessagesOf(c: Conn, step: Step)
    requires ValidNickname(c.nickname)
    requires step.Join? ==> BroadcastOf(Log, c.nickname, JOINED).Got?
    requires step.Bye? ==> BroadcastOf(Log, c.nickname, LEFT).Got?
    ensures step.Join? ==> Messages(c, step) == [C2HMessage(Log, c.nickname, JOINED)]
    ensures step.Bye? ==> Messages(c, step) == [C2HMessage(Log, c.nickname, LEFT)]
  {
    hide BroadcastOf, Handle, Pushes, ValidNickname, Clip;
    if step.Join? {
      BroadcastIs(Log, c.nickname, JOINED);
      StandardBroadcast(c.nickname, JOINED);
    } else if step.Bye? {
      BroadcastIs(Log, c.nickname, LEFT);
      StandardBroadcast(c.nickname, LEFT);
    }
  }

  lemma {:induction false} EntryKeepsShape(s: State, step: Step)
    requires OfSession(step) && Enabled(s, step)
    requires Named(s.conns[step.id]) && TraceShape(s.conns[step.id])
    ensures TraceShape(Entry(s, s.conns[step.id], step))
  {
    hide BroadcastOf, Handle, Get, Reads, Pushes, ValidNickname, Taken, AllDefined, Messages, Opened, Closed, Answered;
    var c := s.conns[step.id];
    match step
    case Join(_) =>
      MessagesOf(c, step);
      JoinedOpens(c.nickname);
      assert c.trace == [];
      assert [] + Messages(c, step) == Messages(c, step);
    case Receive(_, record, acks) =>
      PushesAreOwn(Reads(Arrived(record)), c.nickname, acks, 0);
      ReceiveMessages(c, step);
      OpenedGrows(c.trace, Messages(c, step), c.nickname);
    case Bye(_) =>
      MessagesOf(c, step);
      OpenedCloses(c.trace, c.nickname);
    case Authenticate(_, record) =>
      SilentStep(c, step);
      AnswerKeepsShape(s, c, Get(Arrived(record)).0);
    case _ =>
      SilentStep(c, step);
      MoveKeepsShape(s, c, step);
  }

  lemma {:induction false} MoveKeepsShape(s: State, c: Conn, step: Step)
    requires TraceShape(c)
    requires (step.Welcome? && c.phase == Starting) || (step.GiveUp? && c.phase == Authenticating)
      || (step.Hello? && c.phase == Greeting) || (step.Leave? && c.phase == Chatting)
    ensures TraceShape(Moved(s, c, step))
  {
    hide Opened, Closed, Handle, Answered;
  }

  lemma {:induction false} JoinedOpens(nickname: string)
    ensures Opened([C2HMessage(Log, nickname, JOINED)], nickname)
  {
  }

  lemma {:induction false} ReceiveMessages(c: Conn, step: Step)
    requires step.Receive? && Whole(step.record)
    ensures Messages(c, step) == Pushes(Handle(Reads(Arrived(step.record)), c.nickname, step.acks, 0).0)
  {
  }

  lemma {:induction false} SilentStep(c: Conn, step: Step)
    requires !step.Join? && !step.Receive? && !step.Bye?
    ensures Messages(c, step) == [] && c.trace + Messages(c, step) == c.trace
  {
  }

  lemma {:induction false} AnswerKeepsShape(s: State, c: Conn, message: Outcome)
    requires c.phase == Authenticating && TraceShape(c)
    ensures TraceShape(Answered(s, c, message)) && Answered(s, c, message).trace == c.trace
  {
    hide Taken, ValidNickname, Opened, Closed;
  }

  lemma {:induction false} StepKeepsSessions(s: State, step: Step, max: nat)
    requires SessionsGood(s) && Enabled(s, step)
    ensures SessionsGood(Apply(s, step, max))
  {
    hide Entry, Messages, Named, TraceShape, Apply, Alike, Enabled;
    if OfSession(step) {
      SessionKeepsPhase(s, step);
      EntryIsNamed(s, step);
      EntryKeepsShape(s, step);
      SessionChangesOne(s, step, max);
    } else if step.Admit? {
      AdmittedIsGood(s, step.id, max);
    } else if step.Drop? {
      DroppedIsGood(s, step.id, max);
    } else {
      CursorMoves(s, step, max);
      AlikeKeepsSessions(s, Apply(s, step, max));
    }
  }

  lemma {:induction false} AdmittedIsGood(s: State, id: Id, max: nat)
    requires SessionsGood(s) && Enabled(s, Admit(id))
    ensures SessionsGood(Apply(s, Admit(id), max))
  {
  }

  lemma {:induction false} SessionChangesOne(s: State, step: Step, max: nat)
    requires SessionsGood(s) && OfSession(step) && Enabled(s, step)
    requires var c' := Entry(s, s.conns[step.id], step); Named(c') && TraceShape(c')
    ensures SessionsGood(Apply(s, step, max))
  {
    hide Enabled, Entry, Messages, Named, TraceShape;
  }

  lemma {:induction false} DroppedIsGood(s: State, id: Id, max: nat)
    requires SessionsGood(s) && Enabled(s, Drop(id))
    ensures SessionsGood(Apply(s, Drop(id), max))
  {
    hide Opened, Closed, ValidNickname, Place;
  }

  // ----- the limit and the queue

  lemma {:induction false} StepKeepsLimit(s: State, step: Step, max: nat)
    requires ListMatchesConns(s) && WithinLimit(s, max) && Enabled(s, step)
    ensures WithinLimit(Apply(s, step, max), max)
  {
    hide Entry, Messages, ListMatchesConns;
  }

  function Repeat(id: Id, n: nat): (ids: seq<Id>)
    ensures |ids| == n && forall i :: 0 <= i < n ==> ids[i] == id
  {
    seq(n, _ => id)
  }

  /** A batch of one owner behind the rest belongs to that owner alone. */
  lemma {:induction false} OfBatch(ms: seq<C2HMessage>, owners: seq<Id>, more: seq<C2HMessage>, who: Id, id: Id)
    requires |ms| == |owners|
    ensures Of(ms + more, owners + Repeat(who, |more|), id) == Of(ms, owners, id) + if who == id then more else []
    decreases |more|
  {
    var n := |more|;
    if n == 0 {
      assert ms + more == ms && owners + Repeat(who, 0) == owners;
    } else {
      var all, ids := ms + more, owners + Repeat(who, n);
      assert all[..|all| - 1] == ms + more[..n - 1] && all[|all| - 1] == more[n - 1];
      assert ids[..|all| - 1] == owners + Repeat(who, n - 1) && ids[|all| - 1] == who;
      OfBatch(ms, owners, more[..n - 1], who, id);
      assert more == more[..n - 1] + [more[n - 1]];
    }
  }

  lemma {:induction false} OfNobody(ms: seq<C2HMessage>, owners: seq<Id>, id: Id)
    requires |ms| == |owners| && id !in owners
    ensures Of(ms, owners, id) == []
    decreases |ms|
  {
    if ms != [] {
      OfNobody(ms[..|ms| - 1], owners[..|ms| - 1], id);
    }
  }

  /** What a session enqueues is added to the messages and to its trace alike. */
  lemma {:induction false} SessionInterleaves(ms: seq<C2HMessage>, owners: seq<Id>, conns: map<Id, Conn>, id: Id, c: Conn,
                                              more: seq<C2HMessage>)
    requires Interleaves(ms, owners, conns) && id in conns && c.trace == conns[id].trace + more
    ensures Interleaves(ms + more, owners + Repeat(id, |more|), conns[id := c])
  {
    hide Of;
    forall x | x in conns
      ensures Of(ms + more, owners + Repeat(id, |more|), x) == conns[id := c][x].trace
    {
      OfBatch(ms, owners, more, id, x);
    }
  }

  /** A new session with nothing enqueued, or a change to a session that leaves its trace alone. */
  lemma {:induction false} OtherInterleaves(ms: seq<C2HMessage>, owners: seq<Id>, conns: map<Id, Conn>, id: Id, c: Conn)
    requires Interleaves(ms, owners, conns)
    requires c.trace == if id in conns then conns[id].trace else []
    ensures Interleaves(ms, owners, conns[id := c])
  {
    hide Of;
    if id !in conns {
      OfNobody(ms, owners, id);
    }
  }

  lemma {:induction false} StepConserves(s: State, step: Step, max: nat)
    requires Server.Conserved(s) && Enabled(s, step)
    ensures Server.Conserved(Apply(s, step, max))
  {
    hide Interleaves, Entry, Messages, Place, Enabled;
    var s' := Apply(s, step, max);
    var ms := s.popped + s.queue;
    var owners :| Interleaves(ms, owners, s.conns);
    if OfSession(step) {
      SessionAdds(s, step, max);
      var more := Messages(s.conns[step.id], step);
      assert s.popped + (s.queue + more) == ms + more;
      SessionInterleaves(ms, owners, s.conns, step.id, Entry(s, s.conns[step.id], step), more);
    } else if step.Pop? {
      assert s.queue != [] ==> (s.popped + [s.queue[0]]) + s.queue[1..] == ms;
    } else {
      var id := OtherStepAdds(s, step, max);
      if s'.conns != s.conns {
        OtherInterleaves(ms, owners, s.conns, id, s'.conns[id]);
      }
    }
  }

  lemma {:induction false} SessionAdds(s: State, step: Step, max: nat)
    requires OfSession(step) && Enabled(s, step)
    ensures step.id in s.conns && (step.Authenticate? || step.Receive? ==> Whole(step.record))
    ensures var s', c := Apply(s, step, max), s.conns[step.id];
      && s'.popped == s.popped && s'.queue == s.queue + Messages(c, step)
      && s'.conns == s.conns[step.id := Entry(s, c, step)]
      && Entry(s, c, step).trace == c.trace + Messages(c, step)
  {
    hide Messages, Moved, BroadcastOf, Reads, Get, Handle;
  }

  /** The steps that are no session's own change one entry at most, and no trace. */
  lemma {:induction false} OtherStepAdds(s: State, step: Step, max: nat) returns (id: Id)
    requires !OfSession(step) && !step.Pop? && Enabled(s, step)
    ensures var s' := Apply(s, step, max);
      && s'.popped == s.popped && s'.queue == s.queue
      && (s'.conns != s.conns ==>
            && id in s'.conns && s'.conns == s.conns[id := s'.conns[id]]
            && s'.conns[id].trace == if id in s.conns then s.conns[id].trace else [])
  {
    hide Place;
    id := 0;
    match step
    case Admit(x) => id := x;
    case Drop(x) => id := x;
    case Next => if s.current.Some? { id := s.current.value; }
    case _ =>
  }

  // ----- every run

  lemma {:induction false} StepKeepsInvariant(s: State, step: Step, max: nat)
    requires Invariant(s, max) && Enabled(s, step)
    ensures Invariant(Apply(s, step, max), max)
  {
    hide Apply, Enabled, ListMatchesConns, NicknamesApart, SessionsGood, WithinLimit, Server.Conserved;
    StepKeepsList(s, step, max);
    StepKeepsApart(s, step, max);
    StepKeepsSessions(s, step, max);
    StepKeepsLimit(s, step, max);
    StepConserves(s, step, max);
  }

  lemma {:induction false} RunKeepsInvariant(s: State, steps: seq<Step>, max: nat)
    requires Invariant(s, max)
    ensures Run(s, steps, max).Some? ==> Invariant(Run(s, steps, max).value, max)
    decreases |steps|
  {
    hide Apply, Enabled, Invariant;
    if steps != [] && Enabled(s, steps[0]) {
      StepKeepsInvariant(s, steps[0], max);
      RunKeepsInvariant(Apply(s, steps[0], max), steps[1..], max);
    }
  }

  lemma {:induction false} InitiallyInvariant(max: nat)
    ensures Invariant(INITIAL, max)
  {
    assert Interleaves([] + [], [], INITIAL.conns);
  }

  /** However the accepting thread, the connections and the broadcast thread interleave: the list stays
      within the limit, nicknames in use are valid and pairwise different, what a session enqueues is
      nothing if it failed and otherwise a prefix of joined, texts, left, all its own, and what was popped
      and then what is queued are what the sessions have enqueued, interleaved: nothing is lost, made up,
      doubled, or brought out of its session's order. */
  lemma {:induction false} EveryRun(steps: seq<Step>, max: nat)
    requires Run(INITIAL, steps, max).Some?
    ensures var s := Run(INITIAL, steps, max).value;
      && |s.clients| <= max
      && (forall i, j :: 0 <= i < j < |s.clients| ==> Apart(s, s.clients[i], s.clients[j]))
      && (forall id :: id in s.conns ==> Named(s.conns[id]) && TraceShape(s.conns[id]))
      && exists owners :: Interleaves(s.popped + s.queue, owners, s.conns)
  {
    hide Run, Apart, Named, TraceShape, Interleaves;
    InitiallyInvariant(max);
    RunKeepsInvariant(INITIAL, steps, max);
  }

  /** A new connection gets in exactly when fewer than the limit are listed, and then it is the last on the list. */
  lemma {:induction false} RoomIsGiven(s: State, id: Id, max: nat)
    requires !s.admitting && id !in s.conns
    ensures Run(s, [CheckLimit, Admit(id)], max).Some? <==> |s.clients| < max
    ensures |s.clients| < max ==> Run(s, [CheckLimit, Admit(id)], max).value.clients == s.clients + [id]
  {
    var steps := [CheckLimit, Admit(id)];
    var checked := Apply(s, CheckLimit, max);
    assert steps[1..] == [Admit(id)] && steps[1..][1..] == [];
    assert Run(s, steps, max) == Run(checked, steps[1..], max);
    if Enabled(checked, Admit(id)) {
      assert Run(checked, steps[1..], max) == Run(Apply(checked, Admit(id), max), [], max);
    }
  }
}
