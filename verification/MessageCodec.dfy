/** The codec as it runs: char buffers, cursors and in-place trimming
    (src/lib/message/message.c), each routine proved against the wire format. */
module MessageCodec {
  import opened Wrappers
  import opened CString
  import opened Trim
  import opened Message
  import opened Framing

  /** The prefixes are tried in the source's order; a prefix without its content moves the cursor
      and lets the remaining ones be tried behind it. */
  method GetType(text: string) returns (kind: Kind, cursor: nat)
    ensures (kind, cursor) == TypeOf(text)
  {
    cursor := 0;
    if "/ok" <= text[cursor..] {
      cursor := cursor + 3;
      return Ok, cursor;
    }
    if "/msg" <= text[cursor..] {
      cursor := cursor + 4;
      if |text[cursor..]| > 0 { return Msg, cursor; }
    }
    if "/log" <= text[cursor..] {
      cursor := cursor + 4;
      if |text[cursor..]| > 0 { return Log, cursor; }
    }
    if "/err" <= text[cursor..] {
      cursor := cursor + 4;
      if |text[cursor..]| > 0 { return Err, cursor; }
    }
    if "/quit" <= text[cursor..] {
      cursor := cursor + 5;
      return Quit, cursor;
    }
    if "/nick" <= text[cursor..] {
      cursor := cursor + 5;
      if |text[cursor..]| > 0 { return Nick, cursor; }
    }
    return Null, cursor;
  }

  /** snprintf(dest, size, ...) of a text: what fits, then a NUL; the bytes behind it stay. */
  method PrintInto(dest: array<char>, size: nat, text: string)
    requires 0 < size <= dest.Length
    modifies dest
    ensures dest[..] == Take(text, size - 1) + [NUL] + old(dest[..])[|Take(text, size - 1)| + 1..]
  {
    var out := Take(text, size - 1);
    forall i | 0 <= i < |out| {
      dest[i] := out[i];
    }
    dest[|out|] := NUL;
  }

  /** C2HMessage_format into the zeroed buffer its callers pass: the encoding and its NUL,
      and their common length. */
  method FormatInto(m: C2HMessage, dest: array<char>) returns (length: nat)
    requires dest.Length == BUFFER_SIZE && dest[..] == Zeros(BUFFER_SIZE)
    requires NUL !in m.user && NUL !in m.content
    modifies dest
    ensures length == |Encode(m)| + 1
    ensures dest[..] == Encode(m) + Zeros(BUFFER_SIZE - |Encode(m)|)
  {
    var body := if |m.user| > 0 then "[" + m.user + "] " + m.content else m.content;
    if Known(m.kind) {
      var buffer := Take(body, BUFFER_SIZE - 1);
      if |buffer| > 0 {
        PrintInto(dest, BUFFER_SIZE, Prefix(m.kind) + " " + buffer);
      } else {
        PrintInto(dest, BUFFER_SIZE, Prefix(m.kind));
      }
    }
    assert dest[..] == Encode(m) + Zeros(BUFFER_SIZE - |Encode(m)|);
    EncodingHasNoNul(m);
    CStrOf(Encode(m), Zeros(BUFFER_SIZE - |Encode(m)|));
    length := |CStr(dest[..])| + 1;
  }

  lemma {:induction false} EncodingHasNoNul(m: C2HMessage)
    requires NUL !in m.user && NUL !in m.content
    ensures NUL !in Encode(m)
  {
    if Known(m.kind) {
      EncodeIsFullText(m);
      assert NUL !in Prefix(m.kind);
    }
  }

  /** The loop around SSL_write in Server_send and Client_send. `writes` is what the successive calls
      return: negative on failure, else how many of the offered bytes went out. `wire` collects the
      bytes; None means the last write is still being waited for. */
  method Send(m: C2HMessage, writes: seq<int>) returns (wire: string, result: Option<int>)
    requires NUL !in m.user && NUL !in m.content
    ensures wire <= Encode(m) + [NUL]
    ensures result.Some? && result.value >= 0 ==> wire == Encode(m) + [NUL] && result.value == |wire|
    ensures result.Some? && result.value < 0 ==> exists i :: 0 <= i < |writes| && writes[i] < 0
    ensures result.None? ==> |wire| < |Encode(m)| + 1
  {
    var buffer := new char[BUFFER_SIZE](_ => NUL);
    assert buffer[..] == Zeros(BUFFER_SIZE);
    var length := FormatInto(m, buffer);
    ghost var out := Encode(m) + [NUL];
    assert buffer[..length] == out;
    var data, total, call := 0, 0, 0;
    wire := "";
    while true
      invariant 0 <= data == total < length && wire == out[..total] && call <= |writes|
      invariant buffer[..length] == out
      decreases |writes| - call
    {
      if call == |writes| {
        return wire, None;
      }
      var sent := writes[call];
      if sent < 0 {
        return wire, Some(-1);
      }
      // never more than what was offered
      sent := if sent <= length - total then sent else length - total;
      assert buffer[data..data + sent] == out[data..data + sent];
      wire := wire + buffer[data..data + sent];
      data := data + sent;
      total := total + sent;
      call := call + 1;
      if total >= length {
        return wire, Some(total);
      }
    }
  }

  /** A connection's receive buffer. */
  class MessageBuffer {
    const data: array<char>
    var start: Option<nat>

    ghost function State(): (b: Buffer)
      reads this, data
    {
      Buffer(data[..], start)
    }

    constructor ()
      ensures fresh(data) && Framing.Valid(State()) && State() == EMPTY
    {
      data := new char[MESSAGE_BUFFER_SIZE](_ => NUL);
      start := None;
      new;
      assert data[..] == EMPTY.data;
    }

    method Clear()
      requires data.Length == MESSAGE_BUFFER_SIZE
      modifies this, data
      ensures State() == Buffer(EMPTY.data, old(start))
    {
      forall i | 0 <= i < data.Length {
        data[i] := NUL;
      }
      assert data[..] == EMPTY.data;
    }

    /** Message_get: skips to the first `/`, scans for the NUL, copies the bytes out and moves on. */
    method NextRaw() returns (r: Sliced)
      requires Framing.Valid(State())
      modifies this, data
      ensures (r, State()) == Slice(old(State()))
      ensures Framing.Valid(State())
    {
      ghost var b := State();
      if start.None? {
        start := Some(0);
      }
      var from := start.value;
      var size := data.Length - from;
      var slash := IndexFrom(data[..], '/', from);
      if slash == data.Length {
        start := None;
        Clear();
        return NoData;
      }
      start := Some(slash);
      var end := slash + size - 1;
      var cursor := slash;
      while true
        invariant slash <= cursor <= data.Length && cursor <= end
        invariant forall k :: slash <= k < cursor ==> data[k] != NUL
        invariant data[..] == b.data && start == Some(slash)
        decreases end - cursor
      {
        if cursor == data.Length {
          IndexFromIs(b.data, NUL, slash, cursor);
          return Overrun;
        }
        if cursor == end && data[cursor] != NUL {
          IndexFromIs(b.data, NUL, slash, data.Length);
          return NoData;
        }
        if data[cursor] == NUL {
          end := cursor;
          break;
        }
        cursor := cursor + 1;
      }
      IndexFromIs(b.data, NUL, slash, end);
      var length := end - slash + 1;
      var text := data[slash..end];
      if length < size {
        start := Some(slash + length);
      }
      if length == size {
        start := None;
        Clear();
      }
      return Raw(text);
    }

    /** C2HMessage_get. */
    method NextMessage() returns (r: Outcome)
      requires Framing.Valid(State())
      modifies this, data
      ensures (r, State()) == Get(old(State()))
      ensures Framing.Valid(State())
    {
      var sliced := NextRaw();
      match sliced
      case NoData => r := NoMessage;
      case Overrun => r := Undefined;
      case Raw(text) => r := ParseInPlace(text);
    }
  }

  // ----- parsing the copied bytes

  /** The block behind the prefix once it is trimmed in place: the kept text, its NUL, and
      the leftovers of the bytes that moved down. */
  function TrimmedBlock(s: string): (m: string)
    ensures |m| == |s| + 1
  {
    var r := RTrim(s, BLANKS);
    var t := Trimmed(s, BLANKS);
    t + [NUL] + (r + Zeros(|s| - |r| + 1))[|t| + 1..]
  }

  lemma {:induction false} StringInBlock(raw: string, at: nat)
    requires at <= |raw| && NUL !in raw
    ensures NUL in (raw + [NUL])[at..] && CStr((raw + [NUL])[at..]) == raw[at..]
  {
    assert (raw + [NUL])[at..] == raw[at..] + [NUL];
    assert (raw[at..] + [NUL])[|raw| - at] == NUL;
    CStrOf(raw[at..], [NUL]);
  }

  lemma {:induction false} JoinBlock(raw: string, at: nat, r: string)
    requires at <= |raw| && |r| <= |raw| - at
    ensures var m := raw + [NUL]; var n := |raw| - at - |r|;
      m[..at] + r + Zeros(n) + m[|raw|..] == raw[..at] + (r + Zeros(n + 1))
  {
    var n := |raw| - at - |r|;
    assert Zeros(n) + [NUL] == Zeros(n + 1);
    assert (raw + [NUL])[|raw|..] == [NUL];
    assert (raw + [NUL])[..at] == raw[..at];
  }

  lemma {:induction false} RTrimmedBlock(raw: string, at: nat)
    requires at <= |raw| && NUL !in raw
    ensures NUL in (raw + [NUL])[at..]
    ensures var r := RTrim(raw[at..], BLANKS);
      RTrimMemory(raw + [NUL], at, BLANKS) == raw[..at] + (r + Zeros(|raw| - at - |r| + 1))
  {
    StringInBlock(raw, at);
    JoinBlock(raw, at, RTrim(raw[at..], BLANKS));
  }

  lemma {:induction false} Assoc(a: string, b: string, c: string, d: string)
    ensures a + b + c + d == a + (b + c + d)
    ensures a + (b + c + d) == (a + b) + (c + d)
  {
  }

  lemma {:induction false} BehindParts(p: string, tail: string, k: nat)
    requires k <= |tail|
    ensures (p + tail)[..|p|] == p && (p + tail)[|p|..] == tail && (p + tail)[|p| + k..] == tail[k..]
  {
  }

  lemma {:induction false} Placed(p: string, tail: string, t: string)
    requires |t| < |tail|
    ensures var m := p + tail;
      m[..|p|] + t + [NUL] + m[|p| + |t| + 1..] == p + (t + [NUL] + tail[|t| + 1..])
  {
    BehindParts(p, tail, |t| + 1);
    Assoc(p, t, [NUL], tail[|t| + 1..]);
  }

  lemma {:induction false} LTrimMemoryIs(p: string, tail: string)
    requires NUL in tail
    ensures NUL in (p + tail)[|p|..]
    ensures var t := LTrim(CStr(tail), BLANKS);
      && |t| < |tail|
      && LTrimMemory(p + tail, |p|, BLANKS) == p + (t + [NUL] + tail[|t| + 1..])
  {
    hide LTrim, CStr, RTrim, Zeros;
    CStrStopsInside(tail);
    BehindParts(p, tail, 0);
    Placed(p, tail, LTrim(CStr(tail), BLANKS));
  }

  lemma {:induction false} LTrimmedBlock(p: string, r: string, n: nat)
    requires NUL !in r
    ensures var m := p + (r + Zeros(n + 1));
      && NUL in m[|p|..]
      && LTrimMemory(m, |p|, BLANKS)
         == p + (LTrim(r, BLANKS) + [NUL] + (r + Zeros(n + 1))[|LTrim(r, BLANKS)| + 1..])
  {
    assert (r + Zeros(n + 1))[|r|] == NUL;
    CStrOf(r, Zeros(n + 1));
    LTrimMemoryIs(p, r + Zeros(n + 1));
  }

  lemma {:induction false} TrimmedMemory(raw: string, at: nat)
    requires at <= |raw| && NUL !in raw
    ensures var m := raw + [NUL];
      && NUL in m[at..] && NUL in RTrimMemory(m, at, BLANKS)[at..]
      && LTrimMemory(RTrimMemory(m, at, BLANKS), at, BLANKS) == raw[..at] + TrimmedBlock(raw[at..])
  {
    RTrimmedBlock(raw, at);
    var r := RTrim(raw[at..], BLANKS);
    LTrimmedBlock(raw[..at], r, |raw| - at - |r|);
  }

  /** A search for `c` in a text behind a prefix without `c` is a search in the text. */
  lemma {:induction false} IndexBehind(p: string, t: string, c: char, from: nat)
    requires from <= |t|
    ensures IndexFrom(p + t, c, |p| + from) == |p| + IndexFrom(t, c, from)
  {
    IndexFromIs(p + t, c, |p| + from, |p| + IndexFrom(t, c, from));
  }

  lemma {:induction false} SliceBehind(p: string, t: string, i: nat, j: nat)
    requires i <= j <= |t|
    ensures (p + t)[|p| + i..|p| + j] == t[i..j]
  {
  }

  lemma {:induction false} OpenBehind(p: string, t: string)
    requires '[' !in p
    ensures IndexFrom(p + t, '[', 0) == |p| + IndexFrom(t, '[', 0)
  {
    hide IndexFrom;
    IndexFromIs(p + t, '[', 0, |p| + IndexFrom(t, '[', 0));
  }

  lemma {:induction false} UserBehindPrefix(p: string, t: string)
    requires '[' !in p
    ensures UserOf(p + t) == UserOf(t)
  {
    hide IndexFrom;
    var open := IndexFrom(t, '[', 0);
    OpenBehind(p, t);
    if open < |t| {
      IndexBehind(p, t, ']', open + 1);
      SliceBehind(p, t, open + 1, IndexFrom(t, ']', open + 1));
    }
  }

  lemma {:induction false} TrimmedHasNoNul(s: string)
    requires NUL !in s
    ensures NUL !in RTrim(s, BLANKS) && NUL !in Trimmed(s, BLANKS)
  {
  }

  /** Reading up to a NUL that comes before the end, and reading up to the end. */
  lemma {:induction false} ReadFrom(t: string, left: string, skip: nat, n: nat)
    requires NUL !in t && skip <= |t| <= n <= |t| + 1 + |left|
    ensures CStr((t + [NUL] + left)[skip..n] + [NUL]) == t[skip..]
  {
    var bytes := (t + [NUL] + left)[skip..n] + [NUL];
    var rest := bytes[|t| - skip..];
    assert bytes == t[skip..] + rest;
    assert rest[0] == NUL;
    CStrOf(t[skip..], rest);
  }

  /** The string at the start of the block: the prefix, then the trimmed text. */
  lemma {:induction false} WholeString(p: string, s: string)
    requires NUL !in p && NUL !in s
    ensures CStr(p + TrimmedBlock(s)) == p + Trimmed(s, BLANKS)
  {
    TrimmedHasNoNul(s);
    var r := RTrim(s, BLANKS);
    var t := Trimmed(s, BLANKS);
    var left := (r + Zeros(|s| - |r| + 1))[|t| + 1..];
    Assoc(p, t, [NUL], left);
    CStrOf(p + t, [NUL] + left);
  }

  /** The string at the cursor, read within the block. */
  lemma {:induction false} InsideBlock(s: string, skip: nat)
    requires NUL !in s && skip <= |Trimmed(s, BLANKS)|
    ensures CStr(TrimmedBlock(s)[skip..|s|] + [NUL]) == Trimmed(s, BLANKS)[skip..]
  {
    hide RTrim, LTrim, CStr, Zeros;
    TrimmedHasNoNul(s);
    var r := RTrim(s, BLANKS);
    var t := Trimmed(s, BLANKS);
    ReadFrom(t, (r + Zeros(|s| - |r| + 1))[|t| + 1..], skip, |s|);
  }

  lemma {:induction false} CStrOfZeros(n: nat)
    ensures CStr(Zeros(n)) == ""
  {
    CStrOf("", Zeros(n));
    assert "" + Zeros(n) == Zeros(n);
  }

  /** `n` zeros, and one more, behind `r`: what follows index `k` of them, as a string. */
  lemma {:induction false} Leftover(r: string, n: nat, k: nat)
    requires NUL !in r && 0 < k <= |r| + 1 && k <= |r| + n
    ensures CStr((r + Zeros(n + 1))[k..]) == if k <= |r| then r[k..] else ""
  {
    if k <= |r| {
      assert (r + Zeros(n + 1))[k..] == r[k..] + Zeros(n + 1);
      CStrOf(r[k..], Zeros(n + 1));
    } else {
      assert (r + Zeros(n + 1))[k..] == Zeros(n);
      CStrOfZeros(n);
    }
  }

  lemma {:induction false} LeftoverSlice(t: string, left: string)
    requires left != "" && left[|left| - 1] == NUL
    ensures (t + [NUL] + left)[|t| + 1..|t| + |left|] + [NUL] == left
  {
    SliceBehind(t + [NUL], left, 0, |left| - 1);
    assert left[0..|left| - 1] + [left[|left| - 1]] == left;
  }

  /** The bytes behind the trimmed string and its NUL. */
  lemma {:induction false} BehindBlock(s: string)
    requires NUL !in s && |Trimmed(s, BLANKS)| < |s|
    ensures var r := RTrim(s, BLANKS); var t := Trimmed(s, BLANKS);
      && |t| <= |r|
      && CStr(TrimmedBlock(s)[|t| + 1..|s|] + [NUL]) == if |t| < |r| then r[|t| + 1..] else ""
  {
    hide LTrim, CStr, RTrim, Zeros;
    TrimmedHasNoNul(s);
    var r := RTrim(s, BLANKS);
    var t := Trimmed(s, BLANKS);
    var n := |s| - |r|;
    Leftover(r, n, |t| + 1);
    LeftoverSlice(t, (r + Zeros(n + 1))[|t| + 1..]);
  }

  /** What is found behind the tag in the trimmed block. */
  lemma {:induction false} ContentInBlock(s: string, user: string, skip: nat)
    requires NUL !in s
    requires user != "" ==> |user| + 2 <= |Trimmed(s, BLANKS)|
    requires skip == (if user == "" then 0 else |user| + 3) <= |s|
    ensures CStr(TrimmedBlock(s)[skip..|s|] + [NUL]) == ContentOf(s, user)
  {
    hide RTrim, LTrim, Trimmed, TrimmedBlock, CStr;
    if skip <= |Trimmed(s, BLANKS)| {
      InsideBlock(s, skip);
    } else {
      BehindBlock(s);
    }
  }

  lemma {:induction false} PrefixHasNoBracket(text: string)
    requires !TypeOf(text).0.Null?
    ensures '[' !in text[..TypeOf(text).1]
  {
    var (kind, cursor) := TypeOf(text);
    assert text[..cursor] == Prefix(kind);
  }

  /** The body of C2HMessage_get: the type, then the payload behind it in a copy of the bytes. */
  method ParseInPlace(text: string) returns (r: Outcome)
    requires NUL !in text
    ensures r == Parse(text)
  {
    var kind, cursor := GetType(text);
    if kind == Null {
      return NoMessage;
    }
    PrefixHasNoBracket(text);
    r := ParsePayloadInPlace(text, kind, cursor);
  }

  /** Trim at the cursor, read the user off the whole block, and the content from the cursor on. */
  method ParsePayloadInPlace(text: string, kind: Kind, cursor: nat) returns (r: Outcome)
    requires NUL !in text && cursor <= |text| && '[' !in text[..cursor]
    ensures r == ParsePayload(kind, text[cursor..])
  {
    hide RTrim, LTrim, Trimmed, TrimmedBlock, ContentOf, UserOf, CStr, ParsePayload, RTrimMemory, LTrimMemory;
    var messageData := CopyOut(text);
    assert messageData[cursor..] == messageData[..][cursor..];
    TrimmedMemory(text, cursor);
    TrimInPlace(messageData, cursor, BLANKS);
    r := ReadTrimmed(messageData[..], kind, cursor, |text|, text[..cursor], text[cursor..]);
  }

  method CopyOut(text: string) returns (message: array<char>)
    ensures fresh(message) && message[..] == text + [NUL]
  {
    message := new char[|text| + 1](i => if 0 <= i < |text| then text[i] else NUL);
  }

  /** What the pointers into the trimmed block pick out of it. */
  method ReadTrimmed(messageData: string, kind: Kind, at: nat, end: nat, ghost p: string, ghost s: string)
    returns (r: Outcome)
    requires NUL !in p && NUL !in s && '[' !in p && at == |p| && end == at + |s|
    requires messageData == p + TrimmedBlock(s)
    ensures r == ParsePayload(kind, s)
  {
    hide RTrim, LTrim, Trimmed, TrimmedBlock, ContentOf, UserOf, CStr, Zeros, IndexFrom;
    var trimmed := CStr(messageData[at..end] + [NUL]);
    ReadAtCursor(messageData, p, s);
    if MayBeEmpty(kind) {
      if |trimmed| == 0 {
        return Got(C2HMessage(kind, "", ""));
      }
    }
    var user := "";
    if kind == Msg || kind == Log {
      user := UserOf(CStr(messageData));
      ReadUser(messageData, p, s);
    }
    r := CopyContent(messageData, kind, at, end, user, p, s);
  }

  /** memcpy into a zeroed field, and what is there as a C string. The field must hold the bytes and a NUL behind
      them: this is where the undefined outcomes come from. */
  method CopyField(bytes: string, size: nat) returns (text: string)
    requires |bytes| < size
    ensures text == CStr(bytes + [NUL])
  {
    hide CStr;
    var field := new char[size](_ => NUL);
    forall i | 0 <= i < |bytes| {
      field[i] := bytes[i];
    }
    assert field[..] == bytes + Zeros(size - |bytes|);
    ZerosBehind(bytes, size - |bytes|);
    text := CStr(field[..]);
  }

  /** One NUL behind the bytes ends the string as well as more of them. */
  lemma {:induction false} ZerosBehind(bytes: string, n: nat)
    requires n > 0
    ensures CStr(bytes + Zeros(n)) == CStr(bytes + [NUL])
  {
    var t := CStr(bytes + [NUL]);
    var k := IndexFrom(bytes + [NUL], NUL, 0);
    assert (bytes + [NUL])[|bytes|] == NUL && k <= |bytes|;
    assert forall i :: 0 <= i < k ==> (bytes + Zeros(n))[i] == (bytes + [NUL])[i];
    IndexFromIs(bytes + Zeros(n), NUL, 0, k);
    assert (bytes + Zeros(n))[..k] == (bytes + [NUL])[..k];
  }

  /** Message_getUser's copy, with its terminator. */
  method CopyUser(user: string) returns (field: string)
    requires NUL !in user && |user| < MAX_NICKNAME_SIZE
    ensures field == user
  {
    hide CStr;
    CStrOf(user, [NUL]);
    field := CopyField(user, MAX_NICKNAME_SIZE);
  }

  /** The content: from behind the tag, if there is one, to the end of the block. */
  method CopyContent(messageData: string, kind: Kind, at: nat, end: nat, user: string, ghost p: string, ghost s: string)
    returns (r: Outcome)
    requires NUL !in s && at == |p| && end == at + |s| && messageData == p + TrimmedBlock(s)
    requires !(MayBeEmpty(kind) && Trimmed(s, BLANKS) == "")
    requires user == if HasUser(kind) then UserOf(Trimmed(s, BLANKS)) else ""
    ensures r == ParsePayload(kind, s)
  {
    hide RTrim, LTrim, Trimmed, TrimmedBlock, ContentOf, UserOf, CStr, Zeros, IndexFrom;
    var cursor := at;
    if |user| == MAX_NICKNAME_SIZE {
      return Undefined;
    }
    TrimmedUserHasNoNul(s);
    var field := CopyUser(user);
    if |user| > 0 {
      cursor := cursor + |user| + 3;
    }
    if cursor > end || end - cursor >= BUFFER_SIZE {
      return Undefined;
    }
    var content := CopyField(messageData[cursor..end], BUFFER_SIZE);
    ReadContent(messageData, p, s, user, cursor - at);
    return Got(C2HMessage(kind, field, content));
  }

  lemma {:induction false} TrimmedUserHasNoNul(s: string)
    requires NUL !in s
    ensures NUL !in UserOf(Trimmed(s, BLANKS))
  {
    hide Trimmed;
    TrimmedHasNoNul(s);
  }

  lemma {:induction false} ReadAtCursor(m: string, p: string, s: string)
    requires NUL !in s && m == p + TrimmedBlock(s)
    ensures CStr(m[|p|..|p| + |s|] + [NUL]) == Trimmed(s, BLANKS)
  {
    hide RTrim, LTrim, Trimmed, TrimmedBlock, CStr;
    BlockSlice(m, p, TrimmedBlock(s), 0, |s|);
    InsideBlock(s, 0);
  }

  lemma {:induction false} ReadUser(m: string, p: string, s: string)
    requires NUL !in p && NUL !in s && '[' !in p && m == p + TrimmedBlock(s)
    ensures UserOf(CStr(m)) == UserOf(Trimmed(s, BLANKS))
  {
    hide RTrim, LTrim, Trimmed, TrimmedBlock, CStr, UserOf;
    WholeString(p, s);
    UserBehindPrefix(p, Trimmed(s, BLANKS));
  }

  lemma {:induction false} ReadContent(m: string, p: string, s: string, user: string, skip: nat)
    requires NUL !in s && m == p + TrimmedBlock(s)
    requires user != "" ==> |user| + 2 <= |Trimmed(s, BLANKS)|
    requires skip == (if user == "" then 0 else |user| + 3) <= |s|
    ensures CStr(m[|p| + skip..|p| + |s|] + [NUL]) == ContentOf(s, user)
  {
    hide RTrim, LTrim, Trimmed, TrimmedBlock, CStr, ContentOf;
    BlockSlice(m, p, TrimmedBlock(s), skip, |s|);
    ContentInBlock(s, user, skip);
  }

  lemma {:induction false} BlockSlice(m: string, p: string, block: string, i: nat, j: nat)
    requires m == p + block && i <= j <= |block|
    ensures m[|p| + i..|p| + j] == block[i..j]
  {
    SliceBehind(p, block, i, j);
  }

  // ----- building a message to send

  lemma {:induction false} PrintedBuffer(t: string)
    requires |t| < BUFFER_SIZE
    ensures t + [NUL] + Zeros(BUFFER_SIZE)[|t| + 1..] == t + Zeros(BUFFER_SIZE - |t|)
  {
  }

  /** The string found at `start` in a zeroed field after the text, or the part of it, is copied there. */
  lemma {:induction false} CopiedField(t: string, start: nat)
    requires NUL !in t && |t| < BUFFER_SIZE && start < BUFFER_SIZE
    ensures var buffer := t + Zeros(BUFFER_SIZE - |t|);
      CStr(buffer[start..BUFFER_SIZE - 1] + [NUL]) == if start <= |t| then t[start..] else ""
  {
    hide CStr;
    var buffer := t + Zeros(BUFFER_SIZE - |t|);
    var field := buffer[start..BUFFER_SIZE - 1] + [NUL];
    if start <= |t| {
      assert field == t[start..] + Zeros(BUFFER_SIZE - |t|);
      CStrOf(t[start..], Zeros(BUFFER_SIZE - |t|));
    } else {
      assert field == Zeros(BUFFER_SIZE - start);
      CStrOfZeros(BUFFER_SIZE - start);
    }
  }

  /** The zeroed buffer after vsnprintf. */
  method Compile(text: string) returns (buffer: array<char>)
    requires NUL !in text
    ensures var t := Take(text, BUFFER_SIZE - 1);
      fresh(buffer) && buffer[..] == t + Zeros(BUFFER_SIZE - |t|) && CStr(buffer[..]) == t
  {
    hide CStr;
    ghost var t := Take(text, BUFFER_SIZE - 1);
    buffer := new char[BUFFER_SIZE](_ => NUL);
    assert buffer[..] == Zeros(BUFFER_SIZE);
    PrintInto(buffer, BUFFER_SIZE, text);
    PrintedBuffer(t);
    CStrOf(t, Zeros(BUFFER_SIZE - |t|));
  }

  lemma {:induction false} UserHasNoNul(t: string)
    requires NUL !in t
    ensures NUL !in UserOf(t)
  {
  }

  /** C2HMessage_create with a text its format copies: the content is the buffer from behind the tag. */
  method CreateInPlace(kind: Kind, text: string) returns (r: Outcome)
    requires NUL !in text
    ensures r == Create(kind, text)
  {
    hide UserOf, CStr, Zeros;
    ghost var t := Take(text, BUFFER_SIZE - 1);
    var buffer := Compile(text);
    var user := "";
    if kind == Msg || kind == Log {
      user := UserOf(CStr(buffer[..]));
    }
    if |user| == MAX_NICKNAME_SIZE {
      return Undefined;
    }
    var start, end := 0, BUFFER_SIZE - 1;
    if |user| > 0 {
      start := start + |user| + 3;
    }
    CopiedField(t, start);
    UserHasNoNul(t);
    var field := CopyUser(user);
    var bytes := buffer[..];
    var content := CopyField(bytes[start..end], BUFFER_SIZE);
    r := Got(C2HMessage(kind, field, content));
  }

  /** C2HMessage_createFromString, which trims a copy of what follows the prefix. */
  method CreateFromTyped(text: string) returns (r: Outcome)
    requires NUL !in text
    ensures r == CreateFromString(text)
  {
    hide Create, RTrim, LTrim, Trimmed, CStr, RTrimMemory, LTrimMemory;
    if |text| == 0 {
      return NoMessage;
    }
    var kind, cursor := GetType(text);
    if kind == Null {
      r := CreateInPlace(Msg, text[cursor..]);
      return;
    }
    if kind == Msg || kind == Nick || kind == Quit {
      var copy := CopyOut(text[cursor..]);
      ghost var m := copy[..];
      StringInBlock(text[cursor..], 0);
      assert copy[0..] == m[0..] == m && text[cursor..][0..] == text[cursor..];
      TrimmedString(m, 0, BLANKS);
      TrimInPlace(copy, 0, BLANKS);
      assert copy[..][0..] == copy[..];
      TrimmedHasNoNul(text[cursor..]);
      r := CreateInPlace(kind, CStr(copy[..]));
      return;
    }
    return NoMessage;
  }
}
