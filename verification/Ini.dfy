/** The INI format of src/lib/ini/ini.c, built with INI_ALLOW_MULTILINE=0 and the other defaults of
    ini.h, as functions on strings. */
module Ini {
  import opened CString
  import opened Trim

  const MAX_LINE: nat := 200
  const MAX_SECTION: nat := 50

  /** isspace in the C locale accepts the same six bytes that trim does. */
  const SPACES: set<char> := BLANKS
  const BOM: string := "\U{EF}\U{BB}\U{BF}"

  // ----- the reader

  /** Where the chunk that starts at `from` ends: behind its newline, at a full buffer, or at the end. */
  function ChunkEnd(text: string, from: nat): (end: nat)
    requires from < |text|
    ensures from < end <= |text| && end - from < MAX_LINE
  {
    var newline := IndexFrom(text, '\n', from);
    var end := if newline < |text| then newline + 1 else |text|;
    if end - from < MAX_LINE then end else from + MAX_LINE - 1
  }

  function Chunks(text: string, from: nat): seq<string>
    requires from <= |text|
    decreases |text| - from
  {
    if from == |text| then [] else [text[from..ChunkEnd(text, from)]] + Chunks(text, ChunkEnd(text, from))
  }

  function Joined(chunks: seq<string>): string {
    if chunks == [] then [] else chunks[0] + Joined(chunks[1..])
  }

  /** A chunk as the line buffer can hold it. */
  predicate IsChunk(c: string) {
    0 < |c| < MAX_LINE && '\n' !in c[..|c| - 1]
  }

  /** A chunk that ends before the text does was cut for a reason. */
  predicate IsFull(c: string) {
    IsChunk(c) && (c[|c| - 1] == '\n' || |c| == MAX_LINE - 1)
  }

  // ----- one line

  /** find_chars_or_comment: the first of `chars`, or a `;` behind white space, or the end. */
  function FindFrom(s: string, chars: set<char>, i: nat, wasSpace: bool): (e: nat)
    requires i <= |s|
    ensures i <= e <= |s|
    decreases |s| - i
  {
    if i == |s| || s[i] in chars || (wasSpace && s[i] == ';') then i
    else FindFrom(s, chars, i + 1, s[i] in SPACES)
  }

  function Find(s: string, chars: set<char>): (e: nat)
    ensures e <= |s|
  {
    FindFrom(s, chars, 0, false)
  }

  datatype Line = Ignored | Section(name: string) | Pair(name: string, value: string) | Malformed

  function ValueOf(v: string): string {
    RTrim(LTrim(v[..Find(v, {})], SPACES), SPACES)
  }

  /** What a line without surrounding white space says. */
  function ClassifyStripped(t: string): Line {
    if t == "" || t[0] in {';', '#'} then Ignored
    else if t[0] == '[' then
      var end := 1 + Find(t[1..], {']'});
      if end < |t| && t[end] == ']' then Section(Take(t[1..end], MAX_SECTION - 1)) else Malformed
    else
      var end := Find(t, {'=', ':'});
      if end < |t| && t[end] in {'=', ':'} then Pair(RTrim(t[..end], SPACES), ValueOf(t[end + 1..])) else Malformed
  }

  function Stripped(chunk: string, first: bool): string {
    LTrim(RTrim(if first && BOM <= chunk then chunk[3..] else chunk, SPACES), SPACES)
  }

  function Classify(chunk: string, first: bool): Line {
    ClassifyStripped(Stripped(chunk, first))
  }

  // ----- the whole text

  datatype Call = Call(section: string, name: string, value: string)

  /** The parser between two lines. `error` is 0, or the number of the first bad line. */
  datatype Parser = Parser(section: string, calls: seq<Call>, error: nat)

  const START: Parser := Parser("", [], 0)

  /** The handler: given the calls it had before, does it accept this one? */
  type Handler = (seq<Call>, Call) -> bool

  function NoteError(p: Parser, lineno: nat): Parser {
    if p.error == 0 then p.(error := lineno) else p
  }

  function Step(p: Parser, line: Line, lineno: nat, accept: Handler): Parser {
    match line
    case Ignored => p
    case Section(name) => p.(section := name)
    case Malformed => NoteError(p, lineno)
    case Pair(name, value) =>
      var call := Call(p.section, name, value);
      var p' := p.(calls := p.calls + [call]);
      if accept(p.calls, call) then p' else NoteError(p', lineno)
  }

  /** Lines `lineno + 1` and on. */
  function Parse(p: Parser, chunks: seq<string>, lineno: nat, accept: Handler): Parser
    decreases |chunks|
  {
    if chunks == [] then p
    else Parse(Step(p, Classify(chunks[0], lineno == 0), lineno + 1, accept), chunks[1..], lineno + 1, accept)
  }

  /** ini_parse_string. */
  function ParseText(text: string, accept: Handler): Parser {
    Parse(START, Chunks(text, 0), 0, accept)
  }

  // ----- what the reader guarantees

  lemma {:induction false} ChunkIs(text: string, from: nat)
    requires from < |text|
    ensures IsChunk(text[from..ChunkEnd(text, from)])
    ensures ChunkEnd(text, from) < |text| ==> IsFull(text[from..ChunkEnd(text, from)])
  {
    var end := ChunkEnd(text, from);
    var c := text[from..end];
    forall k | 0 <= k < |c| - 1
      ensures c[k] != '\n'
    {
      assert c[k] == text[from + k];
    }
  }

  /** The chunks are the text cut up: joined they are the text, each is a chunk, and all but the last
      are full. */
  lemma {:induction false} ChunksCutText(text: string, from: nat)
    requires from <= |text|
    ensures Joined(Chunks(text, from)) == text[from..]
    ensures forall i :: 0 <= i < |Chunks(text, from)| ==> IsChunk(Chunks(text, from)[i])
    ensures forall i :: 0 <= i < |Chunks(text, from)| - 1 ==> IsFull(Chunks(text, from)[i])
    decreases |text| - from
  {
    hide IsChunk, IsFull, ChunkEnd;
    if from < |text| {
      var end := ChunkEnd(text, from);
      ChunkIs(text, from);
      ChunksCutText(text, end);
      assert text[from..] == text[from..end] + text[end..];
      if end == |text| {
        assert Chunks(text, end) == [];
      }
    }
  }

  // ----- errors and calls

  /** The calls the well-formed pairs of the lines make, whatever happens to other lines. */
  function CallsOf(section: string, chunks: seq<string>, lineno: nat): seq<Call>
    decreases |chunks|
  {
    if chunks == [] then [] else
    match Classify(chunks[0], lineno == 0)
    case Section(name) => CallsOf(name, chunks[1..], lineno + 1)
    case Pair(name, value) => [Call(section, name, value)] + CallsOf(section, chunks[1..], lineno + 1)
    case _ => CallsOf(section, chunks[1..], lineno + 1)
  }

  /** A line the parser has a reason to complain about, given what the handler has seen. */
  predicate Bad(line: Line, section: string, calls: seq<Call>, accept: Handler) {
    line.Malformed? || (line.Pair? && !accept(calls, Call(section, line.name, line.value)))
  }

  /** The number of the first bad line, or 0. */
  function FirstBad(p: Parser, chunks: seq<string>, lineno: nat, accept: Handler): nat
    decreases |chunks|
  {
    if chunks == [] then 0 else
    var line := Classify(chunks[0], lineno == 0);
    if Bad(line, p.section, p.calls, accept) then lineno + 1
    else FirstBad(Step(p, line, lineno + 1, accept), chunks[1..], lineno + 1, accept)
  }

  /** The result is the first bad line's number, and every well-formed pair reaches the handler,
      before and after it. */
  lemma {:induction false} ParseReports(p: Parser, chunks: seq<string>, lineno: nat, accept: Handler)
    ensures Parse(p, chunks, lineno, accept).calls == p.calls + CallsOf(p.section, chunks, lineno)
    ensures Parse(p, chunks, lineno, accept).error == if p.error != 0 then p.error else FirstBad(p, chunks, lineno, accept)
    decreases |chunks|
  {
    hide Classify;
    if chunks == [] {
      assert p.calls + [] == p.calls;
    } else {
      var line := Classify(chunks[0], lineno == 0);
      var p' := Step(p, line, lineno + 1, accept);
      ParseReports(p', chunks[1..], lineno + 1, accept);
      if line.Pair? {
        var call := Call(p.section, line.name, line.value);
        var rest := CallsOf(p.section, chunks[1..], lineno + 1);
        assert (p.calls + [call]) + rest == p.calls + ([call] + rest);
      }
    }
  }

  // ----- the report, line by line

  /** The section that the first `n` lines leave behind: the last one named on them. */
  function SectionBefore(chunks: seq<string>, n: nat): string
    requires n <= |chunks|
  {
    if n == 0 then "" else
    match Classify(chunks[n - 1], n == 1)
    case Section(name) => name
    case _ => SectionBefore(chunks, n - 1)
  }

  /** The pair on a line, in the section it stands in. */
  function CallAt(chunks: seq<string>, i: nat): seq<Call>
    requires i < |chunks|
  {
    match Classify(chunks[i], i == 0)
    case Pair(name, value) => [Call(SectionBefore(chunks, i), name, value)]
    case _ => []
  }

  /** The pairs on the first `n` lines, in order. */
  function CallsBefore(chunks: seq<string>, n: nat): seq<Call>
    requires n <= |chunks|
  {
    if n == 0 then [] else CallsBefore(chunks, n - 1) + CallAt(chunks, n - 1)
  }

  /** The line cannot be read, or holds a pair that the handler rejects after all the pairs before it. */
  predicate BadLine(chunks: seq<string>, i: nat, accept: Handler)
    requires i < |chunks|
  {
    Bad(Classify(chunks[i], i == 0), SectionBefore(chunks, i), CallsBefore(chunks, i), accept)
  }

  /** The number `e` tells the first bad line behind the first `n`, and 0 that there is none. */
  ghost predicate Reports(chunks: seq<string>, n: nat, e: nat, accept: Handler) {
    if e == 0 then forall i :: n <= i < |chunks| ==> !BadLine(chunks, i, accept)
    else
      && n < e <= |chunks| && BadLine(chunks, e - 1, accept)
      && forall i :: n <= i < e - 1 ==> !BadLine(chunks, i, accept)
  }

  /** From line `n + 1` on, the parser complains of the first bad line, if there is one. */
  lemma {:induction false} FirstBadIs(chunks: seq<string>, n: nat, p: Parser, accept: Handler)
    requires n <= |chunks| && p.section == SectionBefore(chunks, n) && p.calls == CallsBefore(chunks, n)
    ensures Reports(chunks, n, FirstBad(p, chunks[n..], n, accept), accept)
    decreases |chunks| - n
  {
    hide FirstBad, BadLine, CallsBefore, SectionBefore;
    if n < |chunks| {
      OneLineOn(chunks, n, p, accept);
      if !BadLine(chunks, n, accept) {
        FirstBadIs(chunks, n + 1, Step(p, Classify(chunks[n], n == 0), n + 1, accept), accept);
      }
    } else {
      assert chunks[n..] == [];
      NoLine(p, n, accept);
    }
  }

  lemma {:induction false} NoLine(p: Parser, n: nat, accept: Handler)
    ensures FirstBad(p, [], n, accept) == 0
  {
  }

  lemma {:induction false} OneLineOn(chunks: seq<string>, n: nat, p: Parser, accept: Handler)
    requires n < |chunks| && p.section == SectionBefore(chunks, n) && p.calls == CallsBefore(chunks, n)
    ensures var p' := Step(p, Classify(chunks[n], n == 0), n + 1, accept);
      && p'.section == SectionBefore(chunks, n + 1) && p'.calls == CallsBefore(chunks, n + 1)
      && FirstBad(p, chunks[n..], n, accept)
         == if BadLine(chunks, n, accept) then n + 1 else FirstBad(p', chunks[n + 1..], n + 1, accept)
  {
    hide Classify, Bad;
    assert chunks[n..][0] == chunks[n] && chunks[n..][1..] == chunks[n + 1..];
  }

  lemma {:induction false} CallsAreBefore(chunks: seq<string>, n: nat)
    requires n <= |chunks|
    ensures CallsBefore(chunks, |chunks|) == CallsBefore(chunks, n) + CallsOf(SectionBefore(chunks, n), chunks[n..], n)
    decreases |chunks| - n
  {
    hide Classify;
    if n < |chunks| {
      assert chunks[n..][0] == chunks[n] && chunks[n..][1..] == chunks[n + 1..];
      CallsAreBefore(chunks, n + 1);
      var rest := CallsOf(SectionBefore(chunks, n + 1), chunks[n + 1..], n + 1);
      assert (CallsBefore(chunks, n) + CallAt(chunks, n)) + rest == CallsBefore(chunks, n) + (CallAt(chunks, n) + rest);
    } else {
      assert CallsBefore(chunks, n) + [] == CallsBefore(chunks, n);
    }
  }

  /** What a text comes to: the handler gets the pairs of all lines in order, and the result is 0 if no line is
      bad, and otherwise the number of the first bad one. */
  lemma {:induction false} ParseTextReports(text: string, accept: Handler)
    ensures var chunks, r := Chunks(text, 0), ParseText(text, accept);
      && r.calls == CallsBefore(chunks, |chunks|)
      && (r.error == 0 <==> forall i :: 0 <= i < |chunks| ==> !BadLine(chunks, i, accept))
      && (r.error != 0 ==>
            && r.error <= |chunks| && BadLine(chunks, r.error - 1, accept)
            && forall i :: 0 <= i < r.error - 1 ==> !BadLine(chunks, i, accept))
  {
    hide ParseText, CallsOf, FirstBad, Chunks, BadLine, CallsBefore, SectionBefore;
    var chunks := Chunks(text, 0);
    TextReports(text, accept);
    NothingBefore(chunks);
    CallsAreBefore(chunks, 0);
    FirstBadIs(chunks, 0, START, accept);
    assert [] + CallsOf("", chunks, 0) == CallsOf("", chunks, 0);
  }

  lemma {:induction false} NothingBefore(chunks: seq<string>)
    ensures SectionBefore(chunks, 0) == "" && CallsBefore(chunks, 0) == [] && chunks[0..] == chunks
  {
  }

  lemma {:induction false} TextReports(text: string, accept: Handler)
    ensures ParseText(text, accept).calls == CallsOf("", Chunks(text, 0), 0)
    ensures ParseText(text, accept).error == FirstBad(START, Chunks(text, 0), 0, accept)
  {
    hide Parse, CallsOf, FirstBad, Chunks;
    ParseReports(START, Chunks(text, 0), 0, accept);
    assert [] + CallsOf("", Chunks(text, 0), 0) == CallsOf("", Chunks(text, 0), 0);
  }
}
