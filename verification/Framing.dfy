/** Slicing the receive buffer into messages: Message_get and C2HMessage_get as steps on the
    contents of the buffer and its start pointer, src/lib/message/message.c:154-204 and 318-353. */
module Framing {
  import opened Wrappers
  import opened CString
  import opened Message

  /** The bytes of a receive buffer, and where the next read starts; None is the NULL pointer. */
  datatype Buffer = Buffer(data: string, start: Option<nat>)

  /** What Message_get finds. `Overrun` marks the reads that would leave the buffer: text in front
      of the first `/` and no NUL behind it. */
  datatype Sliced = NoData | Raw(text: string) | Overrun

  predicate Valid(b: Buffer) {
    |b.data| == MESSAGE_BUFFER_SIZE && From(b) <= MESSAGE_BUFFER_SIZE
  }

  function From(b: Buffer): nat {
    if b.start.None? then 0 else b.start.value
  }

  const EMPTY: Buffer := Buffer(Zeros(MESSAGE_BUFFER_SIZE), None)

  function Slice(b: Buffer): (r: (Sliced, Buffer))
    requires Valid(b)
    ensures Valid(r.1)
  {
    var start := IndexFrom(b.data, '/', From(b));
    if start == |b.data| then (NoData, EMPTY) else
    var end := IndexFrom(b.data, NUL, start);
    if end == |b.data| then (if start == From(b) then NoData else Overrun, b.(start := Some(start)))
    else if start == From(b) && end + 1 == |b.data| then (Raw(b.data[start..end]), EMPTY)
    else (Raw(b.data[start..end]), b.(start := Some(end + 1)))
  }

  function Get(b: Buffer): (r: (Outcome, Buffer))
    requires Valid(b)
    ensures Valid(r.1)
  {
    var (sliced, b') := Slice(b);
    match sliced
    case NoData => (NoMessage, b')
    case Raw(text) => (Parse(text), b')
    case Overrun => (Undefined, b')
  }

  /** `n` reads in a row. */
  function GetMany(b: Buffer, n: nat): (r: (seq<Outcome>, Buffer))
    requires Valid(b)
    ensures |r.0| == n && Valid(r.1)
    decreases n
  {
    if n == 0 then ([], b) else
    var (first, b') := Get(b);
    var (rest, b'') := GetMany(b', n - 1);
    ([first] + rest, b'')
  }

  // ----- messages laid end to end

  function Frame(raws: seq<string>): string {
    if raws == [] then [] else raws[0] + ([NUL] + Frame(raws[1..]))
  }

  predicate IsRaw(text: string) {
    text != "" && text[0] == '/' && NUL !in text
  }

  predicate AllRaw(raws: seq<string>) {
    forall i :: 0 <= i < |raws| ==> IsRaw(raws[i])
  }

  /** What is left to read of the buffer is `raws`, each with its NUL, and then zeros. */
  predicate Holds(b: Buffer, raws: seq<string>) {
    && Valid(b) && AllRaw(raws)
    && |Frame(raws)| <= |b.data| - From(b)
    && b.data[From(b)..] == Frame(raws) + Zeros(|b.data| - From(b) - |Frame(raws)|)
  }

  /** A freshly zeroed buffer after a read that delivered `raws`. */
  function Filled(raws: seq<string>): (b: Buffer)
    requires |Frame(raws)| <= MESSAGE_BUFFER_SIZE
    ensures Valid(b)
  {
    Buffer(Frame(raws) + Zeros(MESSAGE_BUFFER_SIZE - |Frame(raws)|), Some(0))
  }

  lemma {:induction false} FilledHolds(raws: seq<string>)
    requires AllRaw(raws) && |Frame(raws)| <= MESSAGE_BUFFER_SIZE
    ensures Holds(Filled(raws), raws)
  {
    var b := Filled(raws);
    assert b.data[0..] == b.data;
  }

  lemma {:induction false} SliceLast(b: Buffer)
    requires Holds(b, [])
    ensures Slice(b) == (NoData, EMPTY)
  {
    assert forall k :: From(b) <= k < |b.data| ==> b.data[k] == b.data[From(b)..][k - From(b)];
    IndexFromIs(b.data, '/', From(b), |b.data|);
  }

  /** The first raw message in the unread part: where it starts and ends, and what is behind it. */
  lemma {:induction false} FirstRaw(data: string, from: nat, text: string, rest: string)
    requires from <= |data| && IsRaw(text) && data[from..] == text + ([NUL] + rest)
    ensures IndexFrom(data, '/', from) == from
    ensures from + |text| < |data| && IndexFrom(data, NUL, from) == from + |text|
    ensures data[from..from + |text|] == text && data[from + |text| + 1..] == rest
  {
    var tail := data[from..];
    assert forall k :: 0 <= k < |tail| ==> data[from + k] == tail[k];
    assert forall k :: 0 <= k < |text| ==> data[from + k] == text[k];
    assert tail[|text|] == NUL;
    IndexFromIs(data, '/', from, from);
    IndexFromIs(data, NUL, from, from + |text|);
    assert data[from..from + |text|] == tail[..|text|] == text;
    assert data[from + |text| + 1..] == tail[|text| + 1..] == rest;
  }

  lemma {:induction false} SliceFirst(b: Buffer, raws: seq<string>)
    requires Holds(b, raws) && raws != []
    ensures Slice(b).0 == Raw(raws[0]) && Holds(Slice(b).1, raws[1..])
  {
    var rest := Frame(raws[1..]) + Zeros(|b.data| - From(b) - |Frame(raws)|);
    assert b.data[From(b)..] == raws[0] + ([NUL] + rest);
    FirstRaw(b.data, From(b), raws[0], rest);
    if From(b) + |raws[0]| + 1 == |b.data| {
      assert rest == [];
      EmptyFrame(raws[1..]);
      assert EMPTY.data[0..] == Zeros(MESSAGE_BUFFER_SIZE);
    }
  }

  lemma {:induction false} EmptyFrame(raws: seq<string>)
    requires Frame(raws) == []
    ensures raws == []
  {
  }

  /** What a read makes of the unread part of the buffer, whatever is in it: with no `/` there is nothing, and the
      buffer is wiped; a message without its NUL is kept where it is; text in front of a message is skipped, and
      the next read starts behind that message's NUL; and with text in front and no NUL the scan leaves the buffer. */
  lemma {:induction false} SliceOf(b: Buffer, front: string, text: string, rest: string)
    requires Valid(b) && '/' !in front && NUL !in text && (text == "" ==> rest == "") && (text != "" ==> text[0] == '/')
    requires rest == "" || rest[0] == NUL
    requires b.data[From(b)..] == front + (text + rest)
    ensures text == "" ==> Slice(b) == (NoData, EMPTY)
    ensures text != "" && rest == "" ==>
      Slice(b) == (if front == "" then NoData else Overrun, b.(start := Some(From(b) + |front|)))
    ensures text != "" && rest != "" && (front != "" || |rest| > 1) ==>
      Slice(b) == (Raw(text), b.(start := Some(|b.data| - |rest| + 1)))
    ensures text != "" && rest != "" && front == "" && |rest| == 1 ==> Slice(b) == (Raw(text), EMPTY)
  {
    hide IndexFrom;
    FirstSlash(b.data, From(b), front, text, rest);
    if text != "" {
      FirstNul(b.data, From(b), front, text, rest);
    }
  }

  lemma {:induction false} FirstSlash(data: string, from: nat, front: string, text: string, rest: string)
    requires from <= |data| && data[from..] == front + (text + rest) && '/' !in front
    requires if text == "" then rest == "" else text[0] == '/'
    ensures IndexFrom(data, '/', from) == from + |front|
  {
    var tail := data[from..];
    assert forall k :: 0 <= k < |tail| ==> data[from + k] == tail[k];
    IndexFromIs(data, '/', from, from + |front|);
  }

  lemma {:induction false} FirstNul(data: string, from: nat, front: string, text: string, rest: string)
    requires from <= |data| && data[from..] == front + (text + rest) && NUL !in text
    requires rest == "" || rest[0] == NUL
    ensures var slash := from + |front|;
      && slash + |text| <= |data| && |data| - |rest| == slash + |text|
      && IndexFrom(data, NUL, slash) == slash + |text| && data[slash..slash + |text|] == text
  {
    var tail := data[from..];
    var slash := from + |front|;
    assert forall k :: 0 <= k < |tail| ==> data[from + k] == tail[k];
    assert forall k :: 0 <= k < |text| ==> data[slash + k] == text[k];
    IndexFromIs(data, NUL, slash, slash + |text|);
    assert data[slash..slash + |text|] == tail[|front|..|front| + |text|] == text;
  }

  /** Reading as often as there are messages gives each of them, in order. */
  lemma {:induction false} GetManyRaws(b: Buffer, raws: seq<string>)
    requires Holds(b, raws)
    ensures GetMany(b, |raws|).0 == seq(|raws|, i requires 0 <= i < |raws| => Parse(raws[i]))
    ensures Holds(GetMany(b, |raws|).1, [])
    decreases |raws|
  {
    hide Parse, Slice, Frame, IsRaw;
    if raws != [] {
      SliceFirst(b, raws);
      GetManyRaws(Get(b).1, raws[1..]);
    }
  }

  function Encodings(ms: seq<C2HMessage>): (raws: seq<string>)
    ensures |raws| == |ms| && forall i :: 0 <= i < |ms| ==> raws[i] == Encode(ms[i])
  {
    seq(|ms|, i requires 0 <= i < |ms| => Encode(ms[i]))
  }

  predicate Sendable(m: C2HMessage) {
    WellFormed(m) && IsRecord(m) && Fits(m)
  }

  lemma {:induction false} EncodingIsRaw(m: C2HMessage)
    requires Sendable(m)
    ensures IsRaw(Encode(m))
  {
    EncodeIsFullText(m);
    var p := Prefix(m.kind);
    assert p[0] == '/' && NUL !in p;
    assert p <= FullText(m);
  }

  /** Any messages that fit the buffer together, filling it or not, come out as they went in;
      the read after the last finds nothing and resets the start pointer. */
  lemma {:induction false} FramingRoundTrip(ms: seq<C2HMessage>)
    requires forall i :: 0 <= i < |ms| ==> Sendable(ms[i])
    requires |Frame(Encodings(ms))| <= MESSAGE_BUFFER_SIZE
    ensures var (read, b) := GetMany(Filled(Encodings(ms)), |ms|);
      && (forall i :: 0 <= i < |ms| ==> read[i] == Got(ms[i]))
      && Get(b) == (NoMessage, EMPTY)
  {
    var raws := Encodings(ms);
    forall i | 0 <= i < |ms|
      ensures IsRaw(raws[i]) && Parse(raws[i]) == Got(ms[i])
    {
      EncodingIsRaw(ms[i]);
      RoundTrip(ms[i]);
    }
    FilledHolds(raws);
    GetManyRaws(Filled(raws), raws);
    SliceLast(GetMany(Filled(raws), |ms|).1);
  }
}
