/** The chat phase of one connection, src/server/server.c:584-641, 876-910, 986-1020, and a message's
    way from one client's keyboard to the other clients. */
module Session {
  import opened Wrappers
  import opened CString
  import opened Trim
  import opened Message
  import opened Framing
  import opened MessageCodec
  import LinkedQueue

  /** `^[[:alpha:]][[:alnum:]!@#$%&]\{1,14\}$`, ignoring case, in ASCII. */
  predicate ValidNickname(n: string) {
    2 <= |n| <= 15 && IsAlpha(n[0]) && forall i :: 1 <= i < |n| ==> IsNicknameChar(n[i])
  }

  predicate IsAlpha(c: char) {
    'a' <= c <= 'z' || 'A' <= c <= 'Z'
  }

  predicate IsNicknameChar(c: char) {
    IsAlpha(c) || '0' <= c <= '9' || c in {'!', '@', '#', '$', '%', '&'}
  }

  /** Server_sendMessage and Server_broadcastMessage hand the text they printed to C2HMessage_create
      as a format; it comes out as it went in only without a `%`. */
  function CreateFromFormat(kind: Kind, text: string): Outcome {
    var buffer := Take(text, BUFFER_SIZE - 1);
    if '%' in buffer then Undefined else Create(kind, buffer)
  }

  /** Server_broadcastMessage(kind, "[%s] %s", nickname, content). */
  function BroadcastOf(kind: Kind, nickname: string, content: string): Outcome {
    CreateFromFormat(kind, Tag(nickname) + ([' '] + content))
  }

  /** What the longest broadcast leaves of a content behind the tag of its sender. */
  function Clip(nickname: string, content: string): (c: string)
    ensures c <= content
  {
    if |nickname| + 4 > BUFFER_SIZE then "" else Take(content, BUFFER_SIZE - 4 - |nickname|)
  }

  predicate Printable(nickname: string, content: string) {
    ValidNickname(nickname) && '%' !in nickname && '%' !in content
  }

  lemma {:induction false} NicknameHasNoBracket(n: string)
    requires ValidNickname(n)
    ensures ']' !in n && '[' !in n && NUL !in n
  {
  }

  lemma {:induction false} TakeTagged(tag: string, content: string, n: nat)
    requires |tag| + 1 <= n
    ensures Take(tag + ([' '] + content), n) == tag + ([' '] + Take(content, n - |tag| - 1))
  {
  }

  lemma {:induction false} CreateTagged(kind: Kind, user: string, content: string)
    requires HasUser(kind) && 0 < |user| < MAX_NICKNAME_SIZE && ']' !in user
    requires |user| + 3 + |content| < BUFFER_SIZE
    ensures Create(kind, Tag(user) + ([' '] + content)) == Got(C2HMessage(kind, user, content))
  {
    hide UserOf;
    var text := Tag(user) + ([' '] + content);
    UserOfTag(user, [' '] + content);
    assert text[|user| + 3..] == content;
  }

  /** A broadcast that has an outcome carries its sender's nickname and as much of the content as fits. */
  lemma {:induction false} BroadcastIs(kind: Kind, nickname: string, content: string)
    requires HasUser(kind) && ValidNickname(nickname) && BroadcastOf(kind, nickname, content).Got?
    ensures BroadcastOf(kind, nickname, content) == Got(C2HMessage(kind, nickname, Clip(nickname, content)))
  {
    hide UserOf, ValidNickname, Create;
    ValidNicknameLength(nickname);
    TakeTagged(Tag(nickname), content, BUFFER_SIZE - 1);
    NicknameHasNoBracket(nickname);
    CreateTagged(kind, nickname, Clip(nickname, content));
  }

  /** Without a `%` in it every broadcast has one. */
  lemma {:induction false} BroadcastCarriesSender(kind: Kind, nickname: string, content: string)
    requires HasUser(kind) && Printable(nickname, content)
    ensures BroadcastOf(kind, nickname, content) == Got(C2HMessage(kind, nickname, Clip(nickname, content)))
  {
    hide UserOf, ValidNickname, Create;
    ValidNicknameLength(nickname);
    TakeTagged(Tag(nickname), content, BUFFER_SIZE - 1);
    NicknameHasNoBracket(nickname);
    CreateTagged(kind, nickname, Clip(nickname, content));
  }

  /** A broadcast has an outcome exactly if no `%` is in what is printed of it. */
  lemma {:induction false} BroadcastIsDefinedIff(kind: Kind, nickname: string, content: string)
    requires HasUser(kind) && ValidNickname(nickname)
    ensures BroadcastOf(kind, nickname, content).Got? <==> '%' !in nickname && '%' !in Clip(nickname, content)
  {
    hide UserOf, ValidNickname, Create;
    ValidNicknameLength(nickname);
    TakeTagged(Tag(nickname), content, BUFFER_SIZE - 1);
    NicknameHasNoBracket(nickname);
    CreateTagged(kind, nickname, Clip(nickname, content));
    var text := Tag(nickname) + ([' '] + Clip(nickname, content));
    assert forall c :: c in text <==> c in Tag(nickname) || c == ' ' || c in Clip(nickname, content);
  }

  lemma {:induction false} ValidNicknameLength(n: string)
    requires ValidNickname(n)
    ensures 2 <= |n| <= 15
  {
  }

  // ----- one receive

  /** A search for a message gets ever closer to the end of the buffer. */
  function Unread(b: Buffer): (n: nat)
    requires Framing.Valid(b)
  {
    if IndexFrom(b.data, '/', From(b)) == |b.data| then 0 else |b.data| - From(b) + 1
  }

  lemma {:induction false} GetShrinks(b: Buffer)
    requires Framing.Valid(b) && Get(b).0.Got?
    ensures Unread(Get(b).1) < Unread(b)
  {
    hide Parse;
    IndexFromIs(EMPTY.data, '/', 0, |EMPTY.data|);
  }

  /** What reading until nothing more is read comes to; the last read is the one without a message. */
  function Reads(b: Buffer): (heard: seq<Outcome>)
    requires Framing.Valid(b)
    ensures heard != [] && heard[0] == Get(b).0
    decreases Unread(b)
  {
    var (first, b') := Get(b);
    if first.Got? then
      GetShrinks(b);
      [first] + Reads(b')
    else [first]
  }

  /** What the drain loop does to the outside: an acknowledgement, sent or not, a push, or a read of memory
      that is not its own. */
  datatype Effect = Ack(sent: bool) | Push(message: Outcome) | Fault

  /** A read that asks for something: a quit, or a text with content; or that has no defined outcome. */
  predicate Counts(o: Outcome) {
    match o
    case NoMessage => false
    case Undefined => true
    case Got(m) => m.kind.Quit? || (m.kind.Msg? && m.content != "")
  }

  ghost predicate AlwaysSent(acks: nat -> bool) {
    forall i :: acks(i)
  }

  /** What the loop of Server_handleClient does with what one receive brought; `acks` says which of
      its sends succeed. C2HMessage_free clears the pointer that the loop condition tests, so a text
      that was acknowledged and broadcast ends the loop. */
  function Handle(heard: seq<Outcome>, nickname: string, acks: nat -> bool, sent: nat): (r: (seq<Effect>, bool)) {
    if heard == [] then ([], false) else
    match heard[0]
    case NoMessage => ([], false)
    case Undefined => ([Fault], false)
    case Got(m) =>
      if m.kind.Quit? then ([], true)
      else if Counts(heard[0]) then
        if acks(sent) then ([Ack(true), Push(BroadcastOf(Msg, nickname, m.content))], false)
        else var (rest, quit) := Handle(heard[1..], nickname, acks, sent + 1); ([Ack(false)] + rest, quit)
      else Handle(heard[1..], nickname, acks, sent)
  }

  /** What the loop is there for: every text up to the first quit or unreadable message is
      acknowledged and broadcast, in order. */
  function Intended(heard: seq<Outcome>, nickname: string): (seq<Effect>, bool) {
    if heard == [] then ([], false) else
    match heard[0]
    case NoMessage => ([], false)
    case Undefined => ([Fault], false)
    case Got(m) =>
      if m.kind.Quit? then ([], true)
      else
        var (rest, quit) := Intended(heard[1..], nickname);
        if Counts(heard[0]) then ([Ack(true), Push(BroadcastOf(Msg, nickname, m.content))] + rest, quit)
        else (rest, quit)
  }

  /** The heard of one receive that ask for something, up to the first quit or unreadable one. */
  function Counting(heard: seq<Outcome>): seq<Outcome> {
    if heard == [] || heard[0].NoMessage? then []
    else if Ends(heard[0]) then [heard[0]]
    else if Counts(heard[0]) then [heard[0]] + Counting(heard[1..])
    else Counting(heard[1..])
  }

  predicate Ends(o: Outcome) {
    !o.Got? || o.message.kind.Quit?
  }

  /** The answers to heard that count, one after the other. */
  function Answers(os: seq<Outcome>, nickname: string): (seq<Effect>, bool) {
    if os == [] then ([], false)
    else if !os[0].Got? then ([Fault], false)
    else if os[0].message.kind.Quit? then ([], true)
    else
      var (rest, quit) := Answers(os[1..], nickname);
      ([Ack(true), Push(BroadcastOf(Msg, nickname, os[0].message.content))] + rest, quit)
  }

  lemma {:induction false} IntendedAnswersAll(heard: seq<Outcome>, nickname: string)
    ensures Intended(heard, nickname) == Answers(Counting(heard), nickname)
    decreases |heard|
  {
    hide BroadcastOf;
    if heard != [] && !Ends(heard[0]) {
      IntendedAnswersAll(heard[1..], nickname);
      assert Counts(heard[0]) ==> Counting(heard)[1..] == Counting(heard[1..]);
    }
  }

  function FirstOf(os: seq<Outcome>): seq<Outcome> {
    if os == [] then [] else [os[0]]
  }

  /** With every send succeeding, a receive answers the first read that counts and no other. */
  lemma {:induction false} HandleAnswersFirst(heard: seq<Outcome>, nickname: string, acks: nat -> bool, sent: nat)
    requires AlwaysSent(acks)
    ensures Handle(heard, nickname, acks, sent) == Answers(FirstOf(Counting(heard)), nickname)
    decreases |heard|
  {
    hide BroadcastOf;
    if heard != [] && !Ends(heard[0]) {
      if Counts(heard[0]) {
        var push := Push(BroadcastOf(Msg, nickname, heard[0].message.content));
        assert FirstOf(Counting(heard)) == [heard[0]] && [heard[0]][1..] == [];
        assert [Ack(true), push] + [] == [Ack(true), push];
      } else {
        HandleAnswersFirst(heard[1..], nickname, acks, sent);
      }
    }
  }

  lemma {:induction false} CountingEnds(heard: seq<Outcome>)
    ensures Counting(heard) != [] && Ends(Counting(heard)[0]) ==> |Counting(heard)| == 1
    ensures forall i :: 0 <= i < |Counting(heard)| ==> Counts(Counting(heard)[i])
    decreases |heard|
  {
    if heard != [] && !Ends(heard[0]) {
      CountingEnds(heard[1..]);
    }
  }

  /** The drain loop does what it is there for exactly when at most one read of the receive counts. */
  lemma {:induction false} DrainIsCompleteIff(heard: seq<Outcome>, nickname: string, acks: nat -> bool, sent: nat)
    requires AlwaysSent(acks)
    ensures Handle(heard, nickname, acks, sent) == Intended(heard, nickname) <==> |Counting(heard)| <= 1
  {
    hide BroadcastOf, Handle, Intended, Counting;
    HandleAnswersFirst(heard, nickname, acks, sent);
    IntendedAnswersAll(heard, nickname);
    CountingEnds(heard);
    var os := Counting(heard);
    if |os| > 1 {
      assert FirstOf(os)[1..] == [] && os[1..][0] == os[1];
      assert Answers(os[1..], nickname) != ([], false);
    } else {
      assert FirstOf(os) == os;
    }
  }

  // ----- what the loop does with each kind of read

  /** A message that asks for nothing: no quit, and no text with content. */
  predicate Idle(o: Outcome) {
    o.Got? && o.message.kind != Quit && (o.message.kind == Msg ==> o.message.content == "")
  }

  ghost predicate AllIdle(heard: seq<Outcome>) {
    forall i :: 0 <= i < |heard| ==> Idle(heard[i])
  }

  /** The answer to the first read that asks for something; `rest` are the reads behind it. */
  ghost predicate AnswersTo(r: (seq<Effect>, bool), o: Outcome, rest: seq<Outcome>, nickname: string,
                            acks: nat -> bool, sent: nat)
  {
    match o
    case NoMessage => r == ([], false)
    case Undefined => r == ([Fault], false)
    case Got(m) =>
      if m.kind == Quit then r == ([], true)
      else if acks(sent) then r == ([Ack(true), Push(BroadcastOf(Msg, nickname, m.content))], false)
      else
        && r.0 == [Ack(false)] + Handle(rest, nickname, acks, sent + 1).0
        && r.1 == Handle(rest, nickname, acks, sent + 1).1
  }

  /** Messages that are neither a quit nor a text with content are passed over, and the first other read decides:
      a quit ends the chat and nothing is sent; a text is acknowledged, and if that went out, broadcast; a text
      whose acknowledgement failed is not, and the loop goes on. */
  lemma {:induction false} HandleAt(front: seq<Outcome>, o: Outcome, rest: seq<Outcome>, nickname: string,
                                    acks: nat -> bool, sent: nat)
    requires AllIdle(front) && !Idle(o)
    ensures AnswersTo(Handle(front + [o] + rest, nickname, acks, sent), o, rest, nickname, acks, sent)
    decreases |front|
  {
    hide BroadcastOf;
    var all := front + [o] + rest;
    if front == [] {
      assert all[0] == o && all[1..] == rest;
    } else {
      assert all[0] == front[0] && all[1..] == front[1..] + [o] + rest;
      HandleAt(front[1..], o, rest, nickname, acks, sent);
    }
  }

  lemma {:induction false} IdleReadsDoNothing(heard: seq<Outcome>, nickname: string, acks: nat -> bool, sent: nat)
    requires AllIdle(heard)
    ensures Handle(heard, nickname, acks, sent) == ([], false) == Intended(heard, nickname)
    decreases |heard|
  {
    hide BroadcastOf;
    if heard != [] {
      IdleReadsDoNothing(heard[1..], nickname, acks, sent);
    }
  }

  /** The loop as it is meant to be answers every text in front of the first quit or unreadable message. */
  lemma {:induction false} IntendedAt(front: seq<Outcome>, o: Outcome, rest: seq<Outcome>, nickname: string)
    requires AllIdle(front) && !Idle(o)
    ensures var r := Intended(front + [o] + rest, nickname);
      match o
      case NoMessage => r == ([], false)
      case Undefined => r == ([Fault], false)
      case Got(m) =>
        if m.kind == Quit then r == ([], true)
        else
          && r.0 == [Ack(true), Push(BroadcastOf(Msg, nickname, m.content))] + Intended(rest, nickname).0
          && r.1 == Intended(rest, nickname).1
    decreases |front|
  {
    hide BroadcastOf;
    var all := front + [o] + rest;
    if front == [] {
      assert all[0] == o && all[1..] == rest;
    } else {
      assert all[0] == front[0] && all[1..] == front[1..] + [o] + rest;
      IntendedAt(front[1..], o, rest, nickname);
    }
  }

  /** The effect broadcasts the message, which is a text with content. */
  predicate IsText(o: Outcome, e: Effect, nickname: string) {
    && o.Got? && o.message.kind == Msg && o.message.content != ""
    && e == Push(BroadcastOf(Msg, nickname, o.message.content))
  }

  /** Only a text with content that was received is ever broadcast. */
  lemma {:induction false} PushesComeFromTexts(heard: seq<Outcome>, nickname: string, acks: nat -> bool, sent: nat, i: nat)
    requires i < |Handle(heard, nickname, acks, sent).0| && Handle(heard, nickname, acks, sent).0[i].Push?
    ensures exists o <- heard :: IsText(o, Handle(heard, nickname, acks, sent).0[i], nickname)
    decreases |heard|
  {
    hide BroadcastOf;
    var o := heard[0];
    assert o in heard;
    if Idle(o) {
      PushesComeFromTexts(heard[1..], nickname, acks, sent, i);
    } else if !acks(sent) {
      PushesComeFromTexts(heard[1..], nickname, acks, sent + 1, i - 1);
    }
  }

  /** How many reads count, by what they are. */
  lemma {:induction false} CountingAt(front: seq<Outcome>, o: Outcome, rest: seq<Outcome>)
    requires AllIdle(front) && !Idle(o)
    ensures Counting(front + [o] + rest) ==
      if o == NoMessage then [] else if o == Undefined || o.message.kind == Quit then [o] else [o] + Counting(rest)
    ensures Counting(front) == []
    decreases |front|
  {
    var all := front + [o] + rest;
    if front == [] {
      assert all[0] == o && all[1..] == rest;
    } else {
      assert all[0] == front[0] && all[1..] == front[1..] + [o] + rest;
      CountingAt(front[1..], o, rest);
    }
  }

  /** Messages laid end to end in the buffer are read as themselves, and then there is no more. */
  lemma {:induction false} ReadsAre(b: Buffer, ms: seq<C2HMessage>)
    requires (forall i :: 0 <= i < |ms| ==> Sendable(ms[i])) && Holds(b, Encodings(ms))
    ensures Reads(b) == Gots(ms) + [NoMessage]
    decreases |ms|
  {
    hide Parse, Slice, Frame, IsRaw, WellFormed, Fits, Encode;
    if ms == [] {
      SliceLast(b);
    } else {
      RoundTrip(ms[0]);
      SliceFirst(b, Encodings(ms));
      assert Encodings(ms)[1..] == Encodings(ms[1..]);
      ReadsAre(Get(b).1, ms[1..]);
      assert Gots(ms) + [NoMessage] == [Got(ms[0])] + (Gots(ms[1..]) + [NoMessage]);
    }
  }

  function Gots(ms: seq<C2HMessage>): (os: seq<Outcome>)
    ensures |os| == |ms| && forall i :: 0 <= i < |ms| ==> os[i] == Got(ms[i])
  {
    seq(|ms|, i requires 0 <= i < |ms| => Got(ms[i]))
  }

  lemma {:induction false} ReadsOfFilled(ms: seq<C2HMessage>)
    requires forall i :: 0 <= i < |ms| ==> Sendable(ms[i])
    requires |Frame(Encodings(ms))| <= MESSAGE_BUFFER_SIZE
    ensures Reads(Filled(Encodings(ms))) == Gots(ms) + [NoMessage]
  {
    hide Reads, Frame, Encode, IsRaw, WellFormed, Fits, Holds;
    forall i | 0 <= i < |ms|
      ensures IsRaw(Encodings(ms)[i])
    {
      EncodingIsRaw(ms[i]);
    }
    FilledHolds(Encodings(ms));
    ReadsAre(Filled(Encodings(ms)), ms);
  }

  /** Two texts in one receive: only the first is acknowledged and broadcast. */
  lemma {:induction false} SecondTextIsDropped(a: string, b: string, nickname: string, acks: nat -> bool)
    requires AlwaysSent(acks)
    requires var m := C2HMessage(Msg, "", a); Sendable(m)
    requires var m := C2HMessage(Msg, "", b); Sendable(m)
    requires |Frame(Encodings([C2HMessage(Msg, "", a), C2HMessage(Msg, "", b)]))| <= MESSAGE_BUFFER_SIZE
    ensures var heard := Reads(Filled(Encodings([C2HMessage(Msg, "", a), C2HMessage(Msg, "", b)])));
      && Handle(heard, nickname, acks, 0) == ([Ack(true), Push(BroadcastOf(Msg, nickname, a))], false)
      && Intended(heard, nickname)
         == ([Ack(true), Push(BroadcastOf(Msg, nickname, a)), Ack(true), Push(BroadcastOf(Msg, nickname, b))], false)
  {
    hide Encode, WellFormed, Fits, Frame, Reads, Handle, Intended, Get;
    var ma, mb := C2HMessage(Msg, "", a), C2HMessage(Msg, "", b);
    TextIsNotEmpty(a);
    TextIsNotEmpty(b);
    ReadsOfFilled([ma, mb]);
    assert Gots([ma, mb]) + [NoMessage] == [Got(ma), Got(mb), NoMessage];
    TwoTexts(a, b, nickname, acks);
  }

  lemma {:induction false} TwoTexts(a: string, b: string, nickname: string, acks: nat -> bool)
    requires AlwaysSent(acks) && a != "" && b != ""
    ensures var heard := [Got(C2HMessage(Msg, "", a)), Got(C2HMessage(Msg, "", b)), NoMessage];
      && Handle(heard, nickname, acks, 0) == ([Ack(true), Push(BroadcastOf(Msg, nickname, a))], false)
      && Intended(heard, nickname)
         == ([Ack(true), Push(BroadcastOf(Msg, nickname, a)), Ack(true), Push(BroadcastOf(Msg, nickname, b))], false)
  {
    hide BroadcastOf;
    var ma, mb := C2HMessage(Msg, "", a), C2HMessage(Msg, "", b);
    var heard := [Got(ma), Got(mb), NoMessage];
    assert heard[1..] == [Got(mb), NoMessage] && heard[1..][1..] == [NoMessage];
    var first := [Ack(true), Push(BroadcastOf(Msg, nickname, a))];
    var second := [Ack(true), Push(BroadcastOf(Msg, nickname, b))];
    assert first + second == [first[0], first[1], second[0], second[1]];
    assert second + [] == second;
    assert Intended([NoMessage], nickname) == ([], false);
    assert Intended(heard[1..], nickname) == (second, false);
    assert Intended(heard, nickname) == (first + second, false);
  }

  lemma {:induction false} TextIsNotEmpty(a: string)
    requires WellFormed(C2HMessage(Msg, "", a))
    ensures a != ""
  {
  }

  function Pushes(effects: seq<Effect>): seq<C2HMessage> {
    if effects == [] then []
    else if effects[0].Push? && effects[0].message.Got? then [effects[0].message.message] + Pushes(effects[1..])
    else Pushes(effects[1..])
  }

  // ----- the drain loop as it runs

  predicate LastByteIsNul(b: Buffer) {
    b.data != "" && b.data[|b.data| - 1] == NUL
  }

  lemma {:induction false} SliceKeepsLastByte(b: Buffer)
    requires Framing.Valid(b) && LastByteIsNul(b)
    ensures LastByteIsNul(Slice(b).1)
  {
  }

  lemma {:induction false} SliceHasNoNul(b: Buffer)
    requires Framing.Valid(b) && Slice(b).0.Raw?
    ensures NUL !in Slice(b).0.text
  {
  }

  lemma {:induction false} ParsedHasNoNul(raw: string)
    requires NUL !in raw && Parse(raw).Got?
    ensures NUL !in Parse(raw).message.user && NUL !in Parse(raw).message.content
  {
    hide RTrim, LTrim, UserOf;
    var (kind, cursor) := TypeOf(raw);
    var t := Trimmed(raw[cursor..], BLANKS);
    TrimmedHasNoNul(raw[cursor..]);
    UserHasNoNul(t);
  }

  /** Server_broadcastMessage: the text is printed, used as a format, and what is built of it enqueued. */
  method Broadcast(kind: Kind, nickname: string, content: string, messages: LinkedQueue.CQueue<C2HMessage>)
    returns (r: Outcome)
    requires NUL !in nickname && NUL !in content && messages.Valid()
    modifies messages, messages.queue, messages.queue.nodes
    ensures r == BroadcastOf(kind, nickname, content)
    ensures messages.Valid() && messages.history == LinkedQueue.PushedAll(old(messages.history), Defined(r))
    ensures forall node <- messages.queue.nodes :: node in old(messages.queue.nodes) || fresh(node)
  {
    hide UserOf, Create, CStr, Zeros;
    var text := "[" + nickname + "] " + content;
    assert text == Tag(nickname) + ([' '] + content);
    var buffer := Compile(text);
    var format := CStr(buffer[..]);
    if '%' in format {
      return Undefined;
    }
    r := CreateInPlace(kind, format);
    if r.Got? {
      var success := messages.DoPush(r.message);
    }
  }

  function Defined(r: Outcome): seq<C2HMessage> {
    if r.Got? then [r.message] else []
  }

  /** What the loop has still to do, once it has done `effects`. */
  predicate Left(all: (seq<Effect>, bool), effects: seq<Effect>, heard: seq<Outcome>, nickname: string,
                 acks: nat -> bool, sent: nat)
  {
    all == (effects + Handle(heard, nickname, acks, sent).0, Handle(heard, nickname, acks, sent).1)
  }

  /** One read and what it makes of the rest. */
  lemma {:induction false} LeftAfterRead(all: (seq<Effect>, bool), effects: seq<Effect>, b: Buffer, nickname: string,
                                         acks: nat -> bool, sent: nat)
    requires Framing.Valid(b) && Left(all, effects, Reads(b), nickname, acks, sent)
    ensures var o := Get(b).0;
      && (o.NoMessage? ==> all == (effects, false))
      && (o.Undefined? ==> all == (effects + [Fault], false))
      && (o.Got? && o.message.kind.Quit? ==> all == (effects, true))
      && (o.Got? && !o.message.kind.Quit? && !Counts(o) ==>
            Left(all, effects, Reads(Get(b).1), nickname, acks, sent))
      && (o.Got? && !o.message.kind.Quit? && Counts(o) && !acks(sent) ==>
            Left(all, effects + [Ack(false)], Reads(Get(b).1), nickname, acks, sent + 1))
      && (o.Got? && !o.message.kind.Quit? && Counts(o) && acks(sent) ==>
            all == (effects + [Ack(true), Push(BroadcastOf(Msg, nickname, o.message.content))], false))
  {
    hide Get, BroadcastOf;
    var o := Get(b).0;
    assert effects + [] == effects;
    if o.Got? {
      var rest := Reads(Get(b).1);
      assert Reads(b) == [o] + rest && ([o] + rest)[1..] == rest;
      var tail := Handle(rest, nickname, acks, sent + 1).0;
      assert effects + ([Ack(false)] + tail) == (effects + [Ack(false)]) + tail;
    }
  }

  /** The drain loop on the connection's own buffer, whatever is in it, and the server's queue. */
  method HandleReceived(buffer: MessageBuffer, nickname: string, acks: nat -> bool,
                        messages: LinkedQueue.CQueue<C2HMessage>)
    returns (effects: seq<Effect>, quit: bool)
    requires Framing.Valid(buffer.State()) && NUL !in nickname && messages.Valid()
    modifies buffer, buffer.data, messages, messages.queue, messages.queue.nodes
    ensures (effects, quit) == Handle(Reads(old(buffer.State())), nickname, acks, 0)
    ensures Framing.Valid(buffer.State())
    ensures old(LastByteIsNul(buffer.State())) ==> LastByteIsNul(buffer.State())
    ensures messages.Valid() && messages.history == LinkedQueue.PushedAll(old(messages.history), Pushes(effects))
    ensures forall node <- messages.queue.nodes :: node in old(messages.queue.nodes) || fresh(node)
  {
    hide Parse, Slice, BroadcastOf, Reads, Handle, Get, Left, Pushes, Unread, LinkedQueue.PushedAll, LastByteIsNul;
    effects, quit := [], false;
    ghost var all := Handle(Reads(buffer.State()), nickname, acks, 0);
    var sent := 0;
    LeftAtFirst(Reads(buffer.State()), nickname, acks);
    NothingPushed(messages.history);
    while true
      invariant Framing.Valid(buffer.State()) && !quit
      invariant old(LastByteIsNul(buffer.State())) ==> LastByteIsNul(buffer.State())
      invariant Pushes(effects) == [] && Left(all, effects, Reads(buffer.State()), nickname, acks, sent)
      invariant messages.Valid() && messages.history == old(messages.history)
      invariant messages.queue.nodes == old(messages.queue.nodes)
      decreases Unread(buffer.State())
    {
      GetKeeps(buffer.State());
      LeftAfterRead(all, effects, buffer.State(), nickname, acks, sent);
      var message := buffer.NextMessage();
      if message == NoMessage {
        return;
      }
      if message == Undefined {
        FaultAndAck(effects);
        return effects + [Fault], false;
      }
      var m := message.message;
      if m.kind == Quit {
        quit := true;
        return;
      }
      if m.kind == Msg && |m.content| > 0 {
        if acks(sent) {
          var r := Broadcast(Msg, nickname, m.content, messages);
          AckAndPush(effects, r);
          // the message is freed and NULL now
          return effects + [Ack(true), Push(r)], false;
        }
        FaultAndAck(effects);
        effects := effects + [Ack(false)];
        sent := sent + 1;
      }
    }
  }

  lemma {:induction false} LeftAtFirst(heard: seq<Outcome>, nickname: string, acks: nat -> bool)
    ensures Left(Handle(heard, nickname, acks, 0), [], heard, nickname, acks, 0) && Pushes([]) == []
  {
    hide Handle;
    assert [] + Handle(heard, nickname, acks, 0).0 == Handle(heard, nickname, acks, 0).0;
  }

  lemma {:induction false} NothingPushed(h: LinkedQueue.History<C2HMessage>)
    ensures LinkedQueue.PushedAll(h, []) == h
  {
  }

  lemma {:induction false} AckAndPush(effects: seq<Effect>, r: Outcome)
    requires Pushes(effects) == []
    ensures Pushes(effects + [Ack(true), Push(r)]) == Defined(r)
  {
    var both := [Ack(true), Push(r)];
    assert both[1..] == [Push(r)] && [Push(r)][1..] == [];
    assert Pushes([]) == [] && Pushes([Push(r)]) == Defined(r) && Pushes(both) == Pushes([Push(r)]);
    PushesOf(effects, both);
  }

  lemma {:induction false} FaultAndAck(effects: seq<Effect>)
    ensures Pushes(effects + [Fault]) == Pushes(effects) == Pushes(effects + [Ack(false)])
  {
    assert [Fault][1..] == [] && [Ack(false)][1..] == [] && Pushes([]) == [];
    PushesOf(effects, [Fault]);
    PushesOf(effects, [Ack(false)]);
  }

  lemma {:induction false} PushesOf(a: seq<Effect>, b: seq<Effect>)
    ensures Pushes(a + b) == Pushes(a) + Pushes(b)
    decreases |a|
  {
    if a == [] {
      assert a + b == b;
    } else {
      assert (a + b)[1..] == a[1..] + b;
      PushesOf(a[1..], b);
    }
  }

  /** One read: the buffer stays in order, and what is read are C strings. */
  lemma {:induction false} GetKeeps(b: Buffer)
    requires Framing.Valid(b)
    ensures LastByteIsNul(b) ==> LastByteIsNul(Get(b).1)
    ensures Get(b).0.Got? ==> NUL !in Get(b).0.message.content && Unread(Get(b).1) < Unread(b)
  {
    hide Parse, Slice, Unread;
    if LastByteIsNul(b) {
      SliceKeepsLastByte(b);
    }
    if Get(b).0.Got? {
      SliceHasNoNul(b);
      ParsedHasNoNul(Slice(b).0.text);
      GetShrinks(b);
    }
  }

  /** Server_sendMessage, with a kind that has no user and a text that is copied when it is used as a format:
      success means that the record of exactly that message went out. */
  method SendMessage(kind: Kind, text: string, writes: seq<int>) returns (wire: string, result: Option<int>)
    requires !HasUser(kind) && NUL !in text && '%' !in text && |text| < BUFFER_SIZE
    ensures wire <= Wire(C2HMessage(kind, "", text))
    ensures result.Some? && result.value >= 0 ==> wire == Wire(C2HMessage(kind, "", text)) && result.value == |wire|
    ensures result.Some? && result.value < 0 ==> exists i :: 0 <= i < |writes| && writes[i] < 0
  {
    hide Encode;
    var buffer := Compile(text);
    var message := CreateInPlace(kind, CStr(buffer[..]));
    assert text[0..] == text;
    wire, result := Send(message.message, writes);
  }

  // ----- a receive, and the loop behind it

  /** The buffer once a record has arrived in it: the record and zeros, read from the front. */
  function Arrived(record: string): (b: Buffer)
    requires |record| <= MESSAGE_BUFFER_SIZE
    ensures Framing.Valid(b)
  {
    Buffer(record + Zeros(MESSAGE_BUFFER_SIZE - |record|), Some(0))
  }

  /** A record that does not end in the middle of a message at the last byte of the buffer. */
  predicate Whole(record: string) {
    |record| <= MESSAGE_BUFFER_SIZE && (|record| == MESSAGE_BUFFER_SIZE ==> record[|record| - 1] == NUL)
  }

  lemma {:induction false} WholeLeavesNul(record: string)
    requires Whole(record)
    ensures LastByteIsNul(Arrived(record))
  {
  }

  lemma {:induction false} FrameIsWhole(raws: seq<string>)
    requires |Frame(raws)| <= MESSAGE_BUFFER_SIZE
    ensures Whole(Frame(raws)) && Arrived(Frame(raws)) == Filled(raws)
  {
    FrameEndsInNul(raws);
  }

  lemma {:induction false} FrameEndsInNul(raws: seq<string>)
    ensures raws != [] ==> Frame(raws) != [] && Frame(raws)[|Frame(raws)| - 1] == NUL
    ensures raws == [] ==> Frame(raws) == []
    decreases |raws|
  {
    if raws != [] {
      FrameEndsInNul(raws[1..]);
    }
  }

  /** Server_receive. The unread rest is wiped, and the buffer holds what arrives and nothing else. The
      exception is a last byte that is not NUL in a buffer that has been read from: the branch for leftovers
      clears one byte more than the buffer has, and is told apart as undefined. */
  method Receive(buffer: MessageBuffer, record: string) returns (defined: bool)
    requires Framing.Valid(buffer.State()) && |record| <= MESSAGE_BUFFER_SIZE
    modifies buffer, buffer.data
    ensures defined <==> old(buffer.start) == Some(0) || old(LastByteIsNul(buffer.State()))
    ensures defined ==> buffer.State() == Arrived(record)
    ensures !defined ==> buffer.State() == old(buffer.State())
  {
    if buffer.start != Some(0) && buffer.data[MESSAGE_BUFFER_SIZE - 1] != NUL {
      return false;
    }
    buffer.start := Some(0);
    buffer.Clear();
    forall i | 0 <= i < |record| {
      buffer.data[i] := record[i];
    }
    assert buffer.data[..] == record + Zeros(MESSAGE_BUFFER_SIZE - |record|);
    return true;
  }

  /** One round of the chat loop. It can be repeated for ever: the buffer is again one that the next receive
      may wipe. */
  method ReceiveAndHandle(buffer: MessageBuffer, record: string, nickname: string, acks: nat -> bool,
                          messages: LinkedQueue.CQueue<C2HMessage>)
    returns (effects: seq<Effect>, quit: bool)
    requires Framing.Valid(buffer.State()) && LastByteIsNul(buffer.State()) && Whole(record)
    requires NUL !in nickname && messages.Valid()
    modifies buffer, buffer.data, messages, messages.queue, messages.queue.nodes
    ensures (effects, quit) == Handle(Reads(Arrived(record)), nickname, acks, 0)
    ensures Framing.Valid(buffer.State()) && LastByteIsNul(buffer.State())
    ensures messages.Valid() && messages.history == LinkedQueue.PushedAll(old(messages.history), Pushes(effects))
    ensures forall node <- messages.queue.nodes :: node in old(messages.queue.nodes) || fresh(node)
  {
    hide Handle, Reads, Parse, Slice, BroadcastOf, Pushes;
    var defined := Receive(buffer, record);
    WholeLeavesNul(record);
    effects, quit := HandleReceived(buffer, nickname, acks, messages);
  }

  // ----- from keyboard to screen

  /** A line the client wraps into a text without touching it. */
  predicate PlainText(c: string) {
    && c != "" && IsTrimmed(c, BLANKS) && NUL !in c && '%' !in c
    && UserOf(c) == ""
    && !("/ok" <= c) && !("/msg" <= c) && !("/log" <= c) && !("/err" <= c) && !("/quit" <= c) && !("/nick" <= c)
  }

  lemma {:induction false} PlainTextIsWrapped(c: string)
    requires PlainText(c) && |c| < BUFFER_SIZE - 5
    ensures CreateFromString(c) == Got(C2HMessage(Msg, "", c)) && Sendable(C2HMessage(Msg, "", c))
  {
    hide UserOf;
    assert TypeOf(c) == (Null, 0);
    assert c[0..] == c;
  }

  lemma {:induction false} TaggedIsSendable(n: string, c: string)
    requires ValidNickname(n) && PlainText(c) && |n| + |c| + 9 <= BUFFER_SIZE
    ensures Sendable(C2HMessage(Msg, n, c))
  {
    hide UserOf;
    NicknameHasNoBracket(n);
  }

  /** The record that carries a message. */
  function Wire(m: C2HMessage): (record: string)
    ensures |record| <= BUFFER_SIZE && record != "" && record[|record| - 1] == NUL
  {
    Encode(m) + [NUL]
  }

  lemma {:induction false} WireIsFrame(m: C2HMessage)
    ensures Wire(m) == Frame(Encodings([m])) && Whole(Wire(m)) && Arrived(Wire(m)) == Filled(Encodings([m]))
  {
    var raws := Encodings([m]);
    assert raws[1..] == [] && Frame([]) == [];
    assert Frame(raws) == Encode(m) + ([NUL] + []);
    assert [NUL] + [] == [NUL];
    FrameIsWhole(raws);
  }

  /** A message that can be sent is read off its record, and nothing else is. */
  lemma {:induction false} WireIsRead(m: C2HMessage)
    requires Sendable(m)
    ensures Reads(Arrived(Wire(m))) == [Got(m), NoMessage] && Get(Arrived(Wire(m))).0 == Got(m)
  {
    hide Encode, Frame, Get, WellFormed, Fits;
    WireIsFrame(m);
    assert [m][0] == m;
    ReadsOfFilled([m]);
    assert Gots([m]) + [NoMessage] == [Got(m), NoMessage];
  }

  /** A line that a user types is wrapped, formatted and read by the server, which acknowledges it and
      enqueues it under the user's nickname, unchanged. */
  lemma {:induction false} TypedLineIsHandled(nickname: string, c: string, acks: nat -> bool)
    requires ValidNickname(nickname) && '%' !in nickname && PlainText(c) && acks(0)
    requires |nickname| + |c| + 9 <= BUFFER_SIZE
    ensures CreateFromString(c).Got?
    ensures Handle(Reads(Arrived(Wire(CreateFromString(c).message))), nickname, acks, 0)
         == ([Ack(true), Push(Got(C2HMessage(Msg, nickname, c)))], false)
  {
    hide WellFormed, Fits, ValidNickname, BroadcastOf, UserOf, CreateFromString, Reads, Arrived, Wire;
    ValidNicknameLength(nickname);
    PlainTextIsWrapped(c);
    var typed := C2HMessage(Msg, "", c);
    WireIsRead(typed);
    BroadcastCarriesSender(Msg, nickname, c);
    assert Clip(nickname, c) == c;
  }
}
