/** Writing an INI text and parsing it gives the handler what was written. */
module IniRoundTrip {
  import opened CString
  import opened Trim
  import opened Ini
  import opened IniSyntax

  /** A line as it is written, between two newlines. */
  datatype Layout = Layout(pre: string, shape: Shape, post: string)

  function LineText(l: Layout): string {
    l.pre + Core(l.shape) + l.post
  }

  /** The line with its newline fits the buffer. */
  predicate GoodLayout(l: Layout) {
    && AllIn(l.pre, SPACES) && Proper(l.shape) && AllIn(l.post, SPACES)
    && '\n' !in LineText(l) && |LineText(l)| < MAX_LINE - 1
  }

  predicate GoodLayouts(layouts: seq<Layout>) {
    forall l <- layouts :: GoodLayout(l)
  }

  function Page(layouts: seq<Layout>): string {
    if layouts == [] then [] else LineText(layouts[0]) + (['\n'] + Page(layouts[1..]))
  }

  function Meant(layouts: seq<Layout>): (lines: seq<Line>)
    ensures |lines| == |layouts|
  {
    seq(|layouts|, i requires 0 <= i < |layouts| => Meaning(layouts[i].shape))
  }

  /** The calls that the pairs on the lines stand for; a pair in front of all sections belongs to "". */
  function CallsIn(section: string, lines: seq<Line>): seq<Call>
    decreases |lines|
  {
    if lines == [] then [] else
    match lines[0]
    case Section(name) => CallsIn(name, lines[1..])
    case Pair(name, value) => [Call(section, name, value)] + CallsIn(section, lines[1..])
    case _ => CallsIn(section, lines[1..])
  }

  /** The number of the first line that cannot be read, behind the first `n`, or 0. */
  function FirstMalformed(lines: seq<Line>, n: nat): nat
    decreases |lines|
  {
    if lines == [] then 0 else if lines[0].Malformed? then n + 1 else FirstMalformed(lines[1..], n + 1)
  }

  ghost predicate AlwaysAccepts(accept: Handler) {
    forall calls, call :: accept(calls, call)
  }

  // ----- reading the lines of a page

  lemma {:induction false} FirstChunk(text: string, from: nat, line: string, rest: string)
    requires from <= |text| && text[from..] == line + (['\n'] + rest)
    requires '\n' !in line && |line| < MAX_LINE - 1
    ensures from < |text| && ChunkEnd(text, from) == from + |line| + 1
    ensures text[from..from + |line| + 1] == line + ['\n'] && text[from + |line| + 1..] == rest
  {
    var tail := text[from..];
    assert forall k :: 0 <= k < |line| ==> text[from + k] == line[k];
    assert tail[|line|] == '\n';
    IndexFromIs(text, '\n', from, from + |line|);
    assert text[from..from + |line| + 1] == tail[..|line| + 1] == line + ['\n'];
    assert text[from + |line| + 1..] == tail[|line| + 1..] == rest;
  }

  /** A byte-order mark may stand in front of the first line, and otherwise that line must not look as if
      there were one. */
  predicate MarkFits(mark: string, layouts: seq<Layout>, lineno: nat) {
    if mark == "" then lineno == 0 && layouts != [] ==> !(BOM <= LineText(layouts[0]) + ['\n'])
    else mark == BOM && lineno == 0 && layouts != [] && 3 + |LineText(layouts[0])| < MAX_LINE - 1
  }

  lemma {:induction false} LayoutReads(mark: string, layouts: seq<Layout>, lineno: nat)
    requires layouts != [] && GoodLayout(layouts[0]) && MarkFits(mark, layouts, lineno)
    ensures Classify(mark + LineText(layouts[0]) + ['\n'], lineno == 0) == Meaning(layouts[0].shape)
  {
    hide Classify, Meaning, Proper, Core;
    var l := layouts[0];
    ShapeReads(l.pre, l.shape, l.post + ['\n']);
    assert l.pre + Core(l.shape) + (l.post + ['\n']) == LineText(l) + ['\n'];
    if mark == "" {
      assert mark + LineText(l) + ['\n'] == LineText(l) + ['\n'];
    } else {
      assert mark + LineText(l) + ['\n'] == BOM + (LineText(l) + ['\n']);
    }
  }

  /** The next line of a page and the chunk it is read as. */
  lemma {:induction false} NextLine(text: string, from: nat, mark: string, layouts: seq<Layout>, lineno: nat)
    requires GoodLayouts(layouts) && layouts != [] && MarkFits(mark, layouts, lineno)
    requires from <= |text| && text[from..] == mark + Page(layouts)
    ensures from < |text| && text[ChunkEnd(text, from)..] == Page(layouts[1..])
    ensures Chunks(text, from) == [mark + LineText(layouts[0]) + ['\n']] + Chunks(text, ChunkEnd(text, from))
    ensures Classify(Chunks(text, from)[0], lineno == 0) == Meant(layouts)[0] && Meant(layouts)[1..] == Meant(layouts[1..])
  {
    hide Classify, Meaning, GoodLayout, LineText, ChunkEnd;
    var line := mark + LineText(layouts[0]);
    LineIsShort(mark, layouts, lineno);
    assert text[from..] == line + (['\n'] + Page(layouts[1..]));
    FirstChunk(text, from, line, Page(layouts[1..]));
    LayoutReads(mark, layouts, lineno);
  }

  lemma {:induction false} LineIsShort(mark: string, layouts: seq<Layout>, lineno: nat)
    requires layouts != [] && GoodLayout(layouts[0]) && MarkFits(mark, layouts, lineno)
    ensures '\n' !in mark + LineText(layouts[0]) && |mark + LineText(layouts[0])| < MAX_LINE - 1
  {
    hide LineText;
  }

  /** From a line boundary on, the parser sees the lines as they are meant. */
  lemma {:induction false} ParsePage(text: string, from: nat, mark: string, layouts: seq<Layout>, section: string, lineno: nat)
    requires GoodLayouts(layouts) && MarkFits(mark, layouts, lineno)
    requires from <= |text| && text[from..] == mark + Page(layouts)
    ensures CallsOf(section, Chunks(text, from), lineno) == CallsIn(section, Meant(layouts))
    decreases |layouts|
  {
    hide Classify, ChunkEnd, LineText, GoodLayout, Chunks, Meant;
    if layouts == [] {
      NoLines(text, from, mark, lineno);
    } else {
      NextLine(text, from, mark, layouts, lineno);
      var end, line := ChunkEnd(text, from), Meant(layouts)[0];
      assert Chunks(text, from)[1..] == Chunks(text, end);
      ParsePage(text, end, "", layouts[1..], if line.Section? then line.name else section, lineno + 1);
    }
  }

  lemma {:induction false} NoLines(text: string, from: nat, mark: string, lineno: nat)
    requires MarkFits(mark, [], lineno) && from <= |text| && text[from..] == mark + Page([])
    ensures Chunks(text, from) == [] && Meant([]) == []
  {
  }

  /** With a handler that takes every call, the first bad line is the first one that cannot be read. */
  lemma {:induction false} PageErrors(text: string, from: nat, mark: string, layouts: seq<Layout>, p: Parser, lineno: nat,
                                      accept: Handler)
    requires GoodLayouts(layouts) && MarkFits(mark, layouts, lineno) && AlwaysAccepts(accept)
    requires from <= |text| && text[from..] == mark + Page(layouts)
    ensures FirstBad(p, Chunks(text, from), lineno, accept) == FirstMalformed(Meant(layouts), lineno)
    decreases |layouts|
  {
    hide Classify, ChunkEnd, LineText, GoodLayout, Chunks, Meant;
    if layouts == [] {
      NoLines(text, from, mark, lineno);
    } else {
      NextLine(text, from, mark, layouts, lineno);
      var end, line := ChunkEnd(text, from), Meant(layouts)[0];
      assert Chunks(text, from)[1..] == Chunks(text, end);
      PageErrors(text, end, "", layouts[1..], Step(p, line, lineno + 1, accept), lineno + 1, accept);
    }
  }

  /** Blank lines, comments, sections, entries with either sign and remarks behind them, and lines that cannot be
      read: the handler gets the pairs that are meant, and when it takes them all, the result is the number of the
      first line that cannot be read, or 0. */
  lemma {:induction false} ReadsAsMeant(mark: string, layouts: seq<Layout>, accept: Handler)
    requires GoodLayouts(layouts) && MarkFits(mark, layouts, 0)
    ensures ParseText(mark + Page(layouts), accept).calls == CallsIn("", Meant(layouts))
    ensures AlwaysAccepts(accept) ==>
      ParseText(mark + Page(layouts), accept).error == FirstMalformed(Meant(layouts), 0)
  {
    hide ParseText, Chunks, Page, CallsIn, CallsOf, FirstBad, AlwaysAccepts, MarkFits, Meant;
    var text := mark + Page(layouts);
    assert text[0..] == text;
    TextReports(text, accept);
    ParsePage(text, 0, mark, layouts, "", 0);
    if AlwaysAccepts(accept) {
      PageErrors(text, 0, mark, layouts, START, 0, accept);
    }
  }

  // ----- sections and pairs, written plainly

  predicate GoodLine(line: Line) {
    match line
    case Section(name) =>
      |name| < MAX_SECTION && ']' !in name && '\n' !in name && NoComment(name)
    case Pair(name, value) =>
      && |name| + |value| + 3 < MAX_LINE - 1
      && '\n' !in name && '\n' !in value
      && IsTrimmed(name, SPACES) && IsTrimmed(value, SPACES)
      && '=' !in name && ':' !in name
      && NoComment(name) && NoComment(value)
      && (name == "" || name[0] !in {';', '#', '['})
      && (value == "" || value[0] != ';')
    case _ => false
  }

  function RenderLine(line: Line): string
    requires line.Section? || line.Pair?
  {
    match line
    case Section(name) => ['['] + name + [']']
    case Pair(name, value) => name + [' ', '=', ' '] + value
  }

  predicate GoodLines(lines: seq<Line>) {
    forall i :: 0 <= i < |lines| ==> GoodLine(lines[i])
  }

  function Render(lines: seq<Line>): string
    requires GoodLines(lines)
  {
    if lines == [] then [] else RenderLine(lines[0]) + (['\n'] + Render(lines[1..]))
  }

  /** The blank beside a field that is there. */
  function Beside(field: string): string {
    if field == "" then "" else " "
  }

  /** The blank beside a field that is not there belongs to the white space around the line. */
  function Around(field: string): string {
    if field == "" then " " else ""
  }

  function Plain(line: Line): Layout
    requires GoodLine(line)
  {
    match line
    case Section(name) => Layout("", Header(name, ""), "")
    case Pair(name, value) =>
      Layout(Around(name), Entry(name, Beside(name), '=', Beside(value), value, "", ""), Around(value))
  }

  lemma {:induction false} NoCommentBlankBefore(value: string)
    requires NoComment(value) && (value == "" || value[0] != ';')
    ensures NoComment(Beside(value) + value)
  {
    forall i | 0 < i < |Beside(value) + value| && (Beside(value) + value)[i] == ';'
      ensures (Beside(value) + value)[i - 1] !in SPACES
    {
      assert value[i - 1] == ';';
    }
  }

  lemma {:induction false} PlainIsGood(line: Line)
    requires GoodLine(line)
    ensures GoodLayout(Plain(line)) && LineText(Plain(line)) == RenderLine(line) && Meaning(Plain(line).shape) == line
  {
    hide GoodLayout;
    match line
    case Section(name) => PlainSection(name);
    case Pair(name, value) =>
      PlainText(name, value);
      PlainPair(name, value);
  }

  lemma {:induction false} PlainSection(name: string)
    requires GoodLine(Section(name))
    ensures GoodLayout(Plain(Section(name))) && LineText(Plain(Section(name))) == RenderLine(Section(name))
  {
    hide NoComment;
    assert "" + (['['] + name + [']'] + "") + "" == ['['] + name + [']'];
  }

  lemma {:induction false} PlainText(name: string, value: string)
    requires GoodLine(Pair(name, value))
    ensures LineText(Plain(Pair(name, value))) == RenderLine(Pair(name, value))
    ensures IsTrimmed(Core(Plain(Pair(name, value)).shape), SPACES)
  {
    hide NoComment;
  }

  lemma {:induction false} PlainPair(name: string, value: string)
    requires GoodLine(Pair(name, value))
    ensures GoodLayout(Plain(Pair(name, value)))
  {
    hide NoComment, IsTrimmed, LineText, Core;
    PlainText(name, value);
    NoCommentBlankBefore(value);
    assert '\n' !in RenderLine(Pair(name, value));
  }

  lemma {:induction false} ReadLine(line: Line, first: bool)
    requires GoodLine(line) && (first ==> !(BOM <= RenderLine(line) + ['\n']))
    ensures Classify(RenderLine(line) + ['\n'], first) == line
  {
    hide Classify, LineText, RenderLine, GoodLayout, Meaning, Plain;
    PlainIsGood(line);
    LayoutReads("", [Plain(line)], if first then 0 else 1);
    assert "" + RenderLine(line) + ['\n'] == RenderLine(line) + ['\n'];
  }

  function Plains(lines: seq<Line>): seq<Layout>
    requires GoodLines(lines)
  {
    seq(|lines|, i requires 0 <= i < |lines| => Plain(lines[i]))
  }

  lemma {:induction false} PlainPage(lines: seq<Line>)
    requires GoodLines(lines)
    ensures Page(Plains(lines)) == Render(lines) && GoodLayouts(Plains(lines)) && Meant(Plains(lines)) == lines
  {
    hide GoodLayout, LineText, RenderLine, Plain, Meaning;
    forall i | 0 <= i < |lines|
      ensures GoodLayout(Plain(lines[i])) && Meaning(Plain(lines[i]).shape) == lines[i]
    {
      PlainIsGood(lines[i]);
    }
    if lines != [] {
      PlainIsGood(lines[0]);
      PlainPage(lines[1..]);
      assert Plains(lines)[1..] == Plains(lines[1..]);
    }
  }

  lemma {:induction false} NoneMalformed(lines: seq<Line>, n: nat)
    requires GoodLines(lines)
    ensures FirstMalformed(lines, n) == 0
    decreases |lines|
  {
    if lines != [] {
      NoneMalformed(lines[1..], n + 1);
    }
  }

  /** Writing and parsing: the handler gets exactly the written triples, in order, and when it takes
      them all the result is 0. */
  lemma {:induction false} IniRoundTrip(lines: seq<Line>, accept: Handler)
    requires GoodLines(lines)
    requires lines != [] ==> !(BOM <= RenderLine(lines[0]) + ['\n'])
    ensures ParseText(Render(lines), accept).calls == CallsIn("", lines)
    ensures AlwaysAccepts(accept) ==> ParseText(Render(lines), accept).error == 0
  {
    hide ParseText, Render, CallsIn, AlwaysAccepts, Page, Meant, GoodLayouts, GoodLine, LineText, RenderLine;
    PlainPage(lines);
    if lines != [] {
      PlainIsGood(lines[0]);
    }
    ReadsAsMeant("", Plains(lines), accept);
    assert "" + Render(lines) == Render(lines);
    NoneMalformed(lines, 0);
  }
}
