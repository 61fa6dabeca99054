/** The C2Hat wire format, src/lib/message/message.c, as functions on strings.
    `/type [user] content`, one message ending at its NUL. */
module Message {
  import opened CString
  import opened Trim

  const MAX_NICKNAME_SIZE: nat := 60
  const BUFFER_SIZE: nat := 1536
  const MESSAGE_BUFFER_SIZE: nat := 2048

  datatype Kind =
    | Null | Nick | Auth | Help | Msg | List | Quit | Ok | Err | Log | Admin

  datatype C2HMessage = C2HMessage(kind: Kind, user: string, content: string)

  /** What the functions that build a message come back with. `Undefined` stands for the inputs
      on which the C code would touch memory outside the field or block it works on. */
  datatype Outcome = NoMessage | Got(message: C2HMessage) | Undefined

  function Prefix(kind: Kind): string {
    match kind
    case Nick => "/nick"
    case Msg => "/msg"
    case Quit => "/quit"
    case Ok => "/ok"
    case Err => "/err"
    case Log => "/log"
    case _ => ""
  }

  /** The kinds that have a prefix and so can be sent. */
  predicate Known(kind: Kind) {
    kind.Nick? || kind.Msg? || kind.Quit? || kind.Ok? || kind.Err? || kind.Log?
  }

  predicate HasUser(kind: Kind) {
    kind.Msg? || kind.Log?
  }

  /** The kinds that may come without content. */
  predicate MayBeEmpty(kind: Kind) {
    kind.Ok? || kind.Quit?
  }

  /** The kind a text starts with, and how many bytes the cursor moves past. A prefix that needs
      content and has none gives Null, and the cursor has moved all the same. */
  function TypeOf(text: string): (r: (Kind, nat))
    ensures r.1 <= |text|
    ensures !r.0.Null? ==> Known(r.0) && Prefix(r.0) <= text && r.1 == |Prefix(r.0)|
  {
    if "/ok" <= text then (Ok, 3)
    else if "/msg" <= text then (if |text| > 4 then Msg else Null, 4)
    else if "/log" <= text then (if |text| > 4 then Log else Null, 4)
    else if "/err" <= text then (if |text| > 4 then Err else Null, 4)
    else if "/quit" <= text then (Quit, 5)
    else if "/nick" <= text then (if |text| > 5 then Nick else Null, 5)
    else (Null, 0)
  }

  /** The bytes between the first `[` and the first `]` after it, when there are 1 to 60 of them. */
  function UserOf(text: string): (user: string)
    ensures |user| <= MAX_NICKNAME_SIZE && ']' !in user
    ensures |user| + 2 <= |text| || user == ""
  {
    var open := IndexFrom(text, '[', 0);
    if open == |text| then "" else
    var close := IndexFrom(text, ']', open + 1);
    if close == |text| then "" else
    if 0 < close - (open + 1) <= MAX_NICKNAME_SIZE then text[open + 1..close] else ""
  }

  /** The content of a parsed message: the payload `s` after the prefix, trimmed, without its tag.
      When the tag is all there is, the cursor lands behind the trimmed string, on bytes that
      the move to the front of the block left there. */
  function ContentOf(s: string, user: string): (content: string)
    requires user != "" ==> |user| + 2 <= |Trimmed(s, BLANKS)|
  {
    var r := RTrim(s, BLANKS);
    var t := Trimmed(s, BLANKS);
    var skip := if user == "" then 0 else |user| + 3;
    if skip <= |t| then t[skip..]
    else if |t| < |r| then r[|t| + 1..]
    else ""
  }

  /** What becomes of the payload `s` behind the prefix of a known kind. */
  function ParsePayload(kind: Kind, s: string): (r: Outcome)
    ensures r.Got? ==> r.message.kind == kind
  {
    var t := Trimmed(s, BLANKS);
    if MayBeEmpty(kind) && t == "" then Got(C2HMessage(kind, "", "")) else
    var user := if HasUser(kind) then UserOf(t) else "";
    var skip := if user == "" then 0 else |user| + 3;
    if |user| == MAX_NICKNAME_SIZE || skip > |s| || |s| - skip >= BUFFER_SIZE then Undefined
    else Got(C2HMessage(kind, user, ContentOf(s, user)))
  }

  /** What C2HMessage_get makes of the bytes of one message. */
  function Parse(raw: string): (r: Outcome)
    ensures r.Got? ==> Known(r.message.kind)
  {
    var (kind, cursor) := TypeOf(raw);
    if kind.Null? then NoMessage else ParsePayload(kind, raw[cursor..])
  }

  /** The text behind the prefix. */
  function Body(m: C2HMessage): string {
    if m.user != "" then "[" + m.user + "] " + m.content else m.content
  }

  /** The whole message as it is meant to go out. */
  function FullText(m: C2HMessage): string {
    if Body(m) == "" then Prefix(m.kind) else Prefix(m.kind) + " " + Body(m)
  }

  /** What Message_format prints into a buffer of `size` bytes, cut twice to fit. */
  function FormatText(kind: Kind, text: string, size: nat): (out: string)
    requires size > 0
    ensures |out| < size
  {
    var buffer := Take(text, size - 1);
    if |buffer| > 0 then Take(Prefix(kind) + " " + buffer, size - 1) else Take(Prefix(kind), size - 1)
  }

  function Encode(m: C2HMessage): (out: string)
    ensures |out| < BUFFER_SIZE
  {
    if Known(m.kind) then FormatText(m.kind, Body(m), BUFFER_SIZE) else ""
  }

  predicate Fits(m: C2HMessage) {
    |FullText(m)| < BUFFER_SIZE
  }

  /** C2HMessage_create on a text that has been printed already. */
  function Create(kind: Kind, text: string): (r: Outcome)
    ensures r.Got? ==> r.message.kind == kind
  {
    var buffer := Take(text, BUFFER_SIZE - 1);
    var user := if HasUser(kind) then UserOf(buffer) else "";
    if |user| == MAX_NICKNAME_SIZE then Undefined else
    var start := if user == "" then 0 else |user| + 3;
    Got(C2HMessage(kind, user, if start <= |buffer| then buffer[start..] else ""))
  }

  /** C2HMessage_createFromString: what the client makes of a line the user typed. */
  function CreateFromString(text: string): (r: Outcome)
  {
    if text == "" then NoMessage else
    var (kind, cursor) := TypeOf(text);
    if kind.Null? then Create(Msg, text[cursor..])
    else if kind.Msg? || kind.Nick? || kind.Quit? then Create(kind, Trimmed(text[cursor..], BLANKS))
    else NoMessage
  }

  /** The fields are C strings, and the user fits its field. */
  predicate IsRecord(m: C2HMessage) {
    NUL !in m.user && NUL !in m.content && |m.user| < MAX_NICKNAME_SIZE
  }

  predicate EndsInNoBlank(s: string) {
    s != "" ==> s[|s| - 1] !in BLANKS
  }

  /** The messages that survive the wire. Every condition is about the fields alone. */
  predicate WellFormed(m: C2HMessage) {
    && Known(m.kind)
    && (m.user != "" ==> HasUser(m.kind) && ']' !in m.user)
    && EndsInNoBlank(m.content)
    && (m.user == "" ==>
          && IsTrimmed(m.content, BLANKS)
          && (m.content == "" ==> MayBeEmpty(m.kind))
          && (HasUser(m.kind) ==> UserOf(m.content) == ""))
  }

  // ----- one message there and back

  lemma {:induction false} EncodeIsFullText(m: C2HMessage)
    requires Known(m.kind)
    ensures Encode(m) == Take(FullText(m), BUFFER_SIZE - 1)
    ensures Fits(m) ==> Encode(m) == FullText(m)
  {
    var p := Prefix(m.kind) + " ";
    assert p + Take(Body(m), BUFFER_SIZE - 1) <= p + Body(m);
  }

  lemma {:induction false} TypeOfPrefixed(kind: Kind, rest: string)
    requires Known(kind)
    requires rest != "" || MayBeEmpty(kind)
    ensures TypeOf(Prefix(kind) + rest) == (kind, |Prefix(kind)|)
  {
    var text := Prefix(kind) + rest;
    assert text[1] == Prefix(kind)[1] && text[2] == Prefix(kind)[2];
  }

  lemma {:induction false} UserOfTag(user: string, rest: string)
    requires 0 < |user| <= MAX_NICKNAME_SIZE && ']' !in user
    ensures UserOf(Tag(user) + rest) == user
  {
    var text := Tag(user) + rest;
    IndexFromIs(text, '[', 0, 0);
    assert forall k :: 1 <= k < |user| + 1 ==> text[k] == user[k - 1];
    IndexFromIs(text, ']', 1, |user| + 1);
    assert text[1..|user| + 1] == user;
  }

  lemma {:induction false} ParseOfPrefixed(kind: Kind, s: string)
    requires Known(kind)
    requires s != "" || MayBeEmpty(kind)
    ensures Parse(Prefix(kind) + s) == ParsePayload(kind, s)
  {
    TypeOfPrefixed(kind, s);
    assert (Prefix(kind) + s)[|Prefix(kind)|..] == s;
  }

  lemma {:induction false} PayloadWithoutUser(kind: Kind, s: string)
    requires |s| < BUFFER_SIZE && (HasUser(kind) ==> UserOf(Trimmed(s, BLANKS)) == "")
    ensures ParsePayload(kind, s) == Got(C2HMessage(kind, "", Trimmed(s, BLANKS)))
  {
    hide RTrim, LTrim, Trimmed, UserOf;
  }

  /** Kinds without a user: the content is the trimmed body, whatever the body is. */
  lemma {:induction false} ParsePlain(kind: Kind, body: string)
    requires Known(kind) && !HasUser(kind) && |body| < BUFFER_SIZE - 1
    ensures Parse(Prefix(kind) + ([' '] + body)) == Got(C2HMessage(kind, "", Trimmed(body, BLANKS)))
  {
    ParseOfPrefixed(kind, [' '] + body);
    PayloadWithoutUser(kind, [' '] + body);
    TrimmedCons(' ', body, BLANKS);
  }

  lemma {:induction false} PayloadWithUser(kind: Kind, s: string, user: string)
    requires HasUser(kind) && UserOf(Trimmed(s, BLANKS)) == user
    requires 0 < |user| < MAX_NICKNAME_SIZE && |user| + 3 <= |s| < BUFFER_SIZE + |user| + 3
    ensures ParsePayload(kind, s) == Got(C2HMessage(kind, user, ContentOf(s, user)))
  {
    hide RTrim, LTrim, Trimmed, UserOf, ContentOf;
  }

  lemma {:induction false} PayloadPlain(kind: Kind, content: string)
    requires content != "" && IsTrimmed(content, BLANKS) && |content| < BUFFER_SIZE - 1
    requires HasUser(kind) ==> UserOf(content) == ""
    ensures ParsePayload(kind, [' '] + content) == Got(C2HMessage(kind, "", content))
  {
    TrimmedCons(' ', content, BLANKS);
    TrimmedSelf(content, BLANKS);
    PayloadWithoutUser(kind, [' '] + content);
  }

  function Tag(user: string): string {
    ['['] + user + [']']
  }

  lemma {:induction false} TagOnlyTrims(user: string)
    ensures Trimmed([' '] + (Tag(user) + [' ']), BLANKS) == Tag(user)
    ensures RTrim([' '] + (Tag(user) + [' ']), BLANKS) == [' '] + Tag(user)
  {
    hide RTrim, LTrim, Trimmed;
    TrimmedIs([' '], Tag(user), [' '], BLANKS);
    assert [' '] + Tag(user) + [' '] == [' '] + (Tag(user) + [' ']);
    RTrimIs([' '] + Tag(user), [' '], BLANKS);
  }

  lemma {:induction false} UserOfTagOnly(user: string)
    requires 0 < |user| <= MAX_NICKNAME_SIZE && ']' !in user
    ensures UserOf(Tag(user)) == user
  {
    assert Tag(user) == Tag(user) + [];
    UserOfTag(user, []);
  }

  lemma {:induction false} ContentOfTagOnly(s: string, user: string)
    requires user != "" && |Trimmed(s, BLANKS)| == |user| + 2
    requires |RTrim(s, BLANKS)| == |user| + 3
    ensures ContentOf(s, user) == ""
  {
  }

  lemma {:induction false} PayloadTagOnly(kind: Kind, user: string)
    requires HasUser(kind) && 0 < |user| < MAX_NICKNAME_SIZE && ']' !in user
    ensures ParsePayload(kind, [' '] + (Tag(user) + [' '])) == Got(C2HMessage(kind, user, ""))
  {
    hide RTrim, LTrim, Trimmed, UserOf, ContentOf, ParsePayload;
    TagOnlyTrims(user);
    UserOfTagOnly(user);
    ContentOfTagOnly([' '] + (Tag(user) + [' ']), user);
    PayloadWithUser(kind, [' '] + (Tag(user) + [' ']), user);
  }

  lemma {:induction false} TaggedTrims(user: string, content: string)
    requires content != "" && EndsInNoBlank(content)
    ensures Trimmed([' '] + (Tag(user) + ([' '] + content)), BLANKS) == Tag(user) + ([' '] + content)
  {
    var body := Tag(user) + ([' '] + content);
    assert [' '] + body == [' '] + body + [];
    TrimmedIs([' '], body, [], BLANKS);
  }

  lemma {:induction false} ContentAfterTag(s: string, t: string, user: string, content: string)
    requires Trimmed(s, BLANKS) == t == Tag(user) + ([' '] + content) && user != ""
    ensures ContentOf(s, user) == content
  {
    hide RTrim, LTrim, Trimmed;
    assert t[|user| + 3..] == content;
  }

  lemma {:induction false} PayloadTagged(kind: Kind, user: string, content: string)
    requires HasUser(kind) && 0 < |user| < MAX_NICKNAME_SIZE && ']' !in user
    requires content != "" && EndsInNoBlank(content) && |content| < BUFFER_SIZE - 1
    ensures ParsePayload(kind, [' '] + (Tag(user) + ([' '] + content))) == Got(C2HMessage(kind, user, content))
  {
    var body := Tag(user) + ([' '] + content);
    TaggedTrims(user, content);
    UserOfTag(user, [' '] + content);
    PayloadWithUser(kind, [' '] + body, user);
    ContentAfterTag([' '] + body, body, user, content);
  }

  lemma {:induction false} FullTextIs(m: C2HMessage)
    requires Body(m) != ""
    ensures FullText(m) == Prefix(m.kind) + ([' '] + Body(m))
    ensures m.user != "" ==> Body(m) == Tag(m.user) + ([' '] + m.content)
  {
  }

  lemma {:induction false} RoundTripFull(m: C2HMessage)
    requires WellFormed(m) && IsRecord(m) && Fits(m)
    ensures Parse(FullText(m)) == Got(m)
  {
    if Body(m) == "" {
      assert FullText(m) == Prefix(m.kind) + [];
      ParseOfPrefixed(m.kind, []);
    } else {
      FullTextIs(m);
      ParseOfPrefixed(m.kind, [' '] + Body(m));
      if m.user == "" {
        PayloadPlain(m.kind, m.content);
      } else if m.content == "" {
        assert [' '] + m.content == [' '];
        PayloadTagOnly(m.kind, m.user);
      } else {
        PayloadTagged(m.kind, m.user, m.content);
      }
    }
  }

  lemma {:induction false} SuffixEndsInNoBlank(s: string, k: nat)
    requires k <= |s| && EndsInNoBlank(s)
    ensures EndsInNoBlank(s[k..])
  {
  }

  lemma {:induction false} ContentEndsInNoBlank(s: string, user: string)
    requires user != "" ==> |user| + 2 <= |Trimmed(s, BLANKS)|
    ensures EndsInNoBlank(ContentOf(s, user))
  {
    hide RTrim, LTrim, Trimmed;
    var r := RTrim(s, BLANKS);
    var t := Trimmed(s, BLANKS);
    var skip := if user == "" then 0 else |user| + 3;
    if skip <= |t| {
      SuffixEndsInNoBlank(t, skip);
    } else if |t| < |r| {
      SuffixEndsInNoBlank(r, |t| + 1);
    }
  }

  lemma {:induction false} UserlessPayloadIsWellFormed(kind: Kind, s: string)
    requires Known(kind) && ParsePayload(kind, s).Got? && ParsePayload(kind, s).message.user == ""
    ensures var m := ParsePayload(kind, s).message;
      m.content != "" || MayBeEmpty(m.kind) ==> WellFormed(m)
  {
    hide RTrim, LTrim, Trimmed, UserOf;
  }

  lemma {:induction false} PayloadIsWellFormed(kind: Kind, s: string)
    requires Known(kind) && ParsePayload(kind, s).Got?
    ensures var m := ParsePayload(kind, s).message;
      && |m.user| < MAX_NICKNAME_SIZE
      && (m.user != "" || m.content != "" || MayBeEmpty(m.kind) ==> WellFormed(m))
  {
    hide RTrim, LTrim, Trimmed, UserOf, ContentOf;
    var m := ParsePayload(kind, s).message;
    if m.user == "" {
      UserlessPayloadIsWellFormed(kind, s);
    } else {
      ContentEndsInNoBlank(s, m.user);
    }
  }

  /** Whatever bytes come in, a message that is read is one that could be sent, but for
      the emptiness of its content. */
  lemma {:induction false} ParsedIsWellFormed(raw: string)
    requires Parse(raw).Got?
    ensures var m := Parse(raw).message;
      && |m.user| < MAX_NICKNAME_SIZE
      && (m.user != "" || m.content != "" || MayBeEmpty(m.kind) ==> WellFormed(m))
  {
    var (kind, cursor) := TypeOf(raw);
    PayloadIsWellFormed(kind, raw[cursor..]);
  }

  lemma {:induction false} PrefixAloneIsNoMessage(kind: Kind)
    requires !MayBeEmpty(kind)
    ensures Parse(Prefix(kind)) == NoMessage
  {
    var text := Prefix(kind);
    assert Known(kind) ==> text[1] == 'm' || text[1] == 'l' || text[1] == 'e' || text[1] == 'n';
    assert TypeOf(text).0 == Null;
  }

  /** A record whose encoding fits comes back from the wire exactly when it is well formed. */
  lemma {:induction false} RoundTrip(m: C2HMessage)
    requires IsRecord(m) && Fits(m)
    ensures Parse(Encode(m)) == Got(m) <==> WellFormed(m)
  {
    if WellFormed(m) {
      EncodeIsFullText(m);
      RoundTripFull(m);
    } else if Parse(Encode(m)) == Got(m) {
      EncodeIsFullText(m);
      ParsedIsWellFormed(Encode(m));
      PrefixAloneIsNoMessage(m.kind);
    }
  }

  // ----- what a user can send

  lemma {:induction false} PrefixDecides(kind: Kind, raw: string)
    requires Known(kind) && Prefix(kind) <= raw
    ensures TypeOf(raw).0 == kind || TypeOf(raw).0 == Null
  {
    assert raw[1] == Prefix(kind)[1] && raw[2] == Prefix(kind)[2];
  }

  /** Whatever is typed is sent as a text, a nickname or a quit, and heard as that or not at all: no line
      passes for a word of the server. */
  lemma {:induction false} TypedKinds(text: string)
    requires CreateFromString(text).Got?
    ensures var m := CreateFromString(text).message;
      && (m.kind.Msg? || m.kind.Nick? || m.kind.Quit?)
      && (Parse(Encode(m)).Got? ==> Parse(Encode(m)).message.kind == m.kind)
  {
    hide Create, Body, Trimmed, ParsePayload;
    var m := CreateFromString(text).message;
    EncodeIsFullText(m);
    assert Prefix(m.kind) <= FullText(m);
    PrefixDecides(m.kind, Encode(m));
  }

  /** A user is read off a text exactly if its tag is there, 1 to 60 bytes in the first pair of brackets. */
  lemma {:induction false} UserIsFirstTag(text: string, user: string)
    requires user != ""
    ensures UserOf(text) == user <==>
      |user| <= MAX_NICKNAME_SIZE && ']' !in user && exists open :: TagAt(text, user, open)
  {
    hide UserOf, TagAt;
    if UserOf(text) == user {
      var open := UserHasTag(text, user);
    }
    if open :| |user| <= MAX_NICKNAME_SIZE && ']' !in user && TagAt(text, user, open) {
      TagGivesUser(text, user, open);
    }
  }

  lemma {:induction false} UserHasTag(text: string, user: string) returns (open: nat)
    requires user != "" && UserOf(text) == user
    ensures TagAt(text, user, open)
  {
    hide IndexFrom;
    open := IndexFrom(text, '[', 0);
    var close := IndexFrom(text, ']', open + 1);
    assert close == open + |user| + 1;
  }

  lemma {:induction false} TagGivesUser(text: string, user: string, open: int)
    requires 0 < |user| <= MAX_NICKNAME_SIZE && ']' !in user && TagAt(text, user, open)
    ensures UserOf(text) == user
  {
    hide IndexFrom;
    var tagged := text[open..open + |user| + 2];
    assert forall k :: 0 <= k < |tagged| ==> text[open + k] == tagged[k];
    IndexFromIs(text, '[', 0, open);
    assert forall k :: 0 <= k < |user| ==> tagged[k + 1] == user[k];
    IndexFromIs(text, ']', open + 1, open + 1 + |user|);
    assert text[open + 1..open + 1 + |user|] == tagged[1..|user| + 1] == user;
  }

  /** The first `[` of the text opens the tag of the user. */
  predicate TagAt(text: string, user: string, open: int) {
    && 0 <= open && open + |user| + 2 <= |text| && '[' !in text[..open]
    && text[open..open + |user| + 2] == Tag(user)
  }

  // ----- what a typed command comes to

  predicate MayType(kind: Kind) {
    kind == Msg || kind == Nick || kind == Quit
  }

  /** A command with something behind it, or a quit, is a message of that kind with what is behind it, trimmed. */
  lemma {:induction false} CommandIs(kind: Kind, s: string)
    requires MayType(kind) && (s != "" || kind == Quit)
    ensures CreateFromString(Prefix(kind) + s) == Create(kind, Trimmed(s, BLANKS))
  {
    hide RTrim, LTrim, Trimmed, Create, TypeOf, Prefix;
    TypeOfPrefixed(kind, s);
    PrefixIsNotEmpty(kind);
    assert (Prefix(kind) + s)[|Prefix(kind)|..] == s;
  }

  lemma {:induction false} PrefixIsNotEmpty(kind: Kind)
    ensures Known(kind) ==> Prefix(kind) != ""
  {
  }

  lemma {:induction false} CreatePlain(kind: Kind, text: string)
    requires |text| < BUFFER_SIZE && (HasUser(kind) ==> UserOf(text) == "")
    ensures Create(kind, text) == Got(C2HMessage(kind, "", text))
  {
    hide UserOf;
    assert text[0..] == text;
  }

  /** Typed with any blanks around it, the content of a text, a name or a quit is sent as it is, and read back. */
  lemma {:induction false} TypedCommand(kind: Kind, before: string, content: string, behind: string)
    requires MayType(kind) && AllIn(before, BLANKS) && AllIn(behind, BLANKS)
    requires var m := C2HMessage(kind, "", content); WellFormed(m) && IsRecord(m) && Fits(m)
    ensures var m := C2HMessage(kind, "", content);
      && CreateFromString(Prefix(kind) + (before + content + behind)) == Got(m)
      && Parse(Encode(m)) == Got(m)
  {
    hide RTrim, LTrim, Trimmed, Create, CreateFromString, Parse, Encode, UserOf;
    var m := C2HMessage(kind, "", content);
    RoundTrip(m);
    CommandIs(kind, before + content + behind);
    TrimmedIs(before, content, behind, BLANKS);
    CreatePlain(kind, content);
  }

  /** The server's own words are not taken from the keyboard. */
  lemma {:induction false} ServerWordsAreRefused(kind: Kind, s: string)
    requires kind == Ok || (s != "" && (kind == Log || kind == Err))
    ensures CreateFromString(Prefix(kind) + s) == NoMessage
  {
    TypeOfPrefixed(kind, s);
  }

  /** A prefix that needs content and has none is a text without content. */
  lemma {:induction false} BareCommands(kind: Kind)
    requires Known(kind) && !MayBeEmpty(kind)
    ensures CreateFromString(Prefix(kind)) == Got(C2HMessage(Msg, "", ""))
  {
    hide UserOf;
    var text := Prefix(kind);
    assert text[1] == 'm' || text[1] == 'l' || text[1] == 'e' || text[1] == 'n';
    assert TypeOf(text) == (Null, |text|);
    assert text[|text|..] == "";
    assert UserOf("") == "" by { NoUserInNothing(); }
    CreatePlain(Msg, "");
  }

  lemma {:induction false} NoUserInNothing()
    ensures UserOf("") == ""
  {
  }

  lemma {:induction false} PlainRecord(kind: Kind, content: string)
    requires Known(kind) && content != "" && |content| < 200
    ensures Encode(C2HMessage(kind, "", content)) == Prefix(kind) + (" " + content)
  {
    hide Encode;
    EncodeIsFullText(C2HMessage(kind, "", content));
    FullTextIs(C2HMessage(kind, "", content));
  }

  lemma {:induction false} TaggedRecord(kind: Kind, user: string, content: string)
    requires Known(kind) && user != "" && |user| < 200 && |content| < 200
    ensures Encode(C2HMessage(kind, user, content)) == Prefix(kind) + (" [" + (user + ("] " + content)))
  {
    hide Encode;
    var m := C2HMessage(kind, user, content);
    EncodeIsFullText(m);
    FullTextIs(m);
    assert [' '] + (Tag(user) + ([' '] + content)) == " [" + (user + ("] " + content));
  }

  lemma {:induction false} EmptyRecord(kind: Kind)
    requires Known(kind)
    ensures Encode(C2HMessage(kind, "", "")) == Prefix(kind)
  {
    hide Encode;
    EncodeIsFullText(C2HMessage(kind, "", ""));
  }

  /** What goes over the wire, letter by letter. */
  lemma {:induction false} WireExamples()
    ensures Encode(C2HMessage(Msg, "", "Hello")) == "/msg Hello"
    ensures Encode(C2HMessage(Nick, "", "Al")) == "/nick Al"
    ensures Encode(C2HMessage(Err, "", "No")) == "/err No"
    ensures Encode(C2HMessage(Ok, "", "")) == "/ok" && Encode(C2HMessage(Quit, "", "")) == "/quit"
    ensures Encode(C2HMessage(Log, "Al", "left")) == "/log [Al] left"
  {
    hide Encode;
    PlainRecord(Msg, "Hello");
    PlainRecord(Nick, "Al");
    PlainRecord(Err, "No");
    EmptyRecord(Ok);
    EmptyRecord(Quit);
    TaggedRecord(Log, "Al", "left");
    WireText();
  }

  lemma {:induction false} WireText()
    ensures Prefix(Msg) + (" " + "Hello") == "/msg Hello" && Prefix(Nick) + (" " + "Al") == "/nick Al"
    ensures Prefix(Err) + (" " + "No") == "/err No" && Prefix(Ok) == "/ok" && Prefix(Quit) == "/quit"
    ensures Prefix(Log) + (" [" + ("Al" + ("] " + "left"))) == "/log [Al] left"
  {
  }
}
