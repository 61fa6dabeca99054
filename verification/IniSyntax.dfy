/** The lines of an INI text by how they are written (src/lib/ini/ini.h:42-54, 78-99): what each shape of line
    is read as, and that every line has a shape. */
module IniSyntax {
  import opened CString
  import opened Trim
  import opened Ini

  /** A line without the white space around it. `remark` is a comment behind the rest of the line. */
  datatype Shape =
    | Empty
    | Comment(sign: char, text: string)
    | Header(name: string, rest: string)
    | OpenHeader(name: string, remark: string)
    | Entry(name: string, gap: string, sign: char, lead: string, value: string, trail: string, remark: string)
    | NoSign(name: string, remark: string)

  function Core(s: Shape): string {
    match s
    case Empty => ""
    case Comment(sign, text) => [sign] + text
    case Header(name, rest) => ['['] + name + [']'] + rest
    case OpenHeader(name, remark) => ['['] + name + remark
    case Entry(name, gap, sign, lead, value, trail, remark) => name + gap + ([sign] + (lead + value + trail + remark))
    case NoSign(name, remark) => name + remark
  }

  /** No `;` behind white space: nothing that reads as an inline comment. */
  predicate NoComment(s: string) {
    forall i :: 0 < i < |s| && s[i] == ';' ==> s[i - 1] !in SPACES
  }

  predicate EndsInSpace(s: string) {
    s != "" && s[|s| - 1] in SPACES
  }

  /** Nothing, or a `;` with anything behind it, which needs white space in front. */
  predicate Remark(before: string, remark: string) {
    remark == "" || (remark[0] == ';' && EndsInSpace(before))
  }

  predicate Unsigned(s: string) {
    '=' !in s && ':' !in s
  }

  /** Nothing that makes the line a comment or a section. */
  predicate NameStart(name: string) {
    name == "" || name[0] !in {';', '#', '['}
  }

  predicate Proper(s: Shape) {
    && IsTrimmed(Core(s), SPACES)
    && match s
       case Empty => true
       case Comment(sign, _) => sign == ';' || sign == '#'
       case Header(name, _) => ']' !in name && NoComment(name)
       case OpenHeader(name, remark) => ']' !in name && NoComment(name) && Remark(name, remark)
       case Entry(name, gap, sign, lead, value, trail, remark) =>
         && NameStart(name) && Unsigned(name) && NoComment(name) && IsTrimmed(name, SPACES)
         && AllIn(gap + lead + trail, SPACES) && (sign == '=' || sign == ':')
         && NoComment(lead + value) && IsTrimmed(value, SPACES) && Remark(lead + value + trail, remark)
       case NoSign(name, remark) => name != "" && NameStart(name) && Unsigned(name) && NoComment(name) && Remark(name, remark)
  }

  function Meaning(s: Shape): Line {
    match s
    case Empty => Ignored
    case Comment(_, _) => Ignored
    case Header(name, _) => Section(Take(name, 49))
    case OpenHeader(_, _) => Malformed
    case Entry(name, _, _, _, value, _, _) => Pair(name, value)
    case NoSign(_, _) => Malformed
  }

  // ----- searching

  /** Nothing before `e` that a search stops at. */
  predicate Passes(s: string, chars: set<char>, e: nat)
    requires e <= |s|
  {
    NoComment(s[..e]) && forall k :: 0 <= k < e ==> s[k] !in chars
  }

  predicate Stops(s: string, chars: set<char>, e: nat)
    requires e <= |s|
  {
    e == |s| || s[e] in chars || (s[e] == ';' && EndsInSpace(s[..e]))
  }

  lemma {:induction false} FindFromIs(s: string, chars: set<char>, i: nat, e: nat)
    requires i <= e <= |s| && Passes(s, chars, e) && Stops(s, chars, e)
    ensures FindFrom(s, chars, i, EndsInSpace(s[..i])) == e
    decreases e - i
  {
    if i < e {
      assert s[..e][i] == s[i] && (i > 0 ==> s[..e][i - 1] == s[i - 1] == s[..i][i - 1]);
      assert s[..i + 1][i] == s[i];
      FindFromIs(s, chars, i + 1, e);
    }
  }

  /** A search stops where it has passed what is in front and may not pass what is there. */
  lemma {:induction false} FindIs(s: string, chars: set<char>, e: nat)
    requires e <= |s| && Passes(s, chars, e) && Stops(s, chars, e)
    ensures Find(s, chars) == e
  {
    assert !EndsInSpace(s[..0]);
    FindFromIs(s, chars, 0, e);
  }

  lemma {:induction false} FindFromStops(s: string, chars: set<char>, i: nat)
    requires i <= |s| && Passes(s, chars, i)
    ensures var e := FindFrom(s, chars, i, EndsInSpace(s[..i])); Passes(s, chars, e) && Stops(s, chars, e)
    decreases |s| - i
  {
    if !Stops(s, chars, i) {
      assert s[..i + 1][..i] == s[..i] && s[..i + 1][i] == s[i];
      assert forall k :: 0 <= k < i ==> s[..i + 1][k] == s[..i][k];
      FindFromStops(s, chars, i + 1);
    }
  }

  lemma {:induction false} FindStops(s: string, chars: set<char>)
    ensures Passes(s, chars, Find(s, chars)) && Stops(s, chars, Find(s, chars))
  {
    assert !EndsInSpace(s[..0]);
    FindFromStops(s, chars, 0);
  }

  // ----- what a shape is read as

  lemma {:induction false} NoCommentThenSpaces(s: string, gap: string)
    requires NoComment(s) && AllIn(gap, SPACES)
    ensures NoComment(s + gap)
  {
  }

  lemma {:induction false} HeaderReads(name: string, rest: string)
    requires Proper(Header(name, rest))
    ensures ClassifyStripped(Core(Header(name, rest))) == Section(Take(name, 49))
  {
    hide Find;
    var t := Core(Header(name, rest));
    assert t[1..] == name + ([']'] + rest) && t[1..][..|name|] == name;
    FindIs(t[1..], {']'}, |name|);
    assert t[1..1 + |name|] == name;
  }

  lemma {:induction false} OpenHeaderReads(name: string, remark: string)
    requires Proper(OpenHeader(name, remark))
    ensures ClassifyStripped(Core(OpenHeader(name, remark))) == Malformed
  {
    hide Find;
    var t := Core(OpenHeader(name, remark));
    assert t[1..] == name + remark && t[1..][..|name|] == name;
    FindIs(t[1..], {']'}, |name|);
  }

  lemma {:induction false} NoSignReads(name: string, remark: string)
    requires Proper(NoSign(name, remark))
    ensures ClassifyStripped(Core(NoSign(name, remark))) == Malformed
  {
    hide Find, ValueOf, RTrim;
    var t := Core(NoSign(name, remark));
    assert t[..|name|] == name;
    FindIs(t, {'=', ':'}, |name|);
  }

  /** The value is what is left of the part in front of the remark without the white space around it. */
  lemma {:induction false} ValueIs(lead: string, value: string, trail: string, remark: string)
    requires AllIn(lead, SPACES) && AllIn(trail, SPACES) && IsTrimmed(value, SPACES)
    requires NoComment(lead + value) && Remark(lead + value + trail, remark)
    ensures ValueOf(lead + value + trail + remark) == value
  {
    hide Find, RTrim, LTrim;
    var s := lead + value + trail;
    NoCommentThenSpaces(lead + value, trail);
    assert (s + remark)[..|s|] == s;
    FindIs(s + remark, {}, |s|);
    if value == "" {
      assert s == (lead + trail) + "";
      LTrimIs(lead + trail, "", SPACES);
      assert "" + "" == "";
      RTrimIs("", "", SPACES);
    } else {
      assert s == lead + (value + trail);
      LTrimIs(lead, value + trail, SPACES);
      RTrimIs(value, trail, SPACES);
    }
  }

  lemma {:induction false} EntryReads(s: Shape)
    requires Proper(s) && s.Entry?
    ensures ClassifyStripped(Core(s)) == Pair(s.name, s.value)
  {
    hide Find, ValueOf, RTrim, NoComment;
    var t, e := Core(s), |s.name + s.gap|;
    var v := s.lead + s.value + s.trail + s.remark;
    assert t == (s.name + s.gap) + ([s.sign] + v);
    SpacesAreIn(s.gap, s.lead, s.trail);
    assert t[..e] == s.name + s.gap && t[e] == s.sign && t[e + 1..] == v;
    NoCommentThenSpaces(s.name, s.gap);
    FindIs(t, {'=', ':'}, e);
    RTrimIs(s.name, s.gap, SPACES);
    ValueIs(s.lead, s.value, s.trail, s.remark);
    EntryStart(s);
  }

  lemma {:induction false} SpacesAreIn(a: string, b: string, c: string)
    requires AllIn(a + b + c, SPACES)
    ensures AllIn(a, SPACES) && AllIn(b, SPACES) && AllIn(c, SPACES)
  {
    var s := a + b + c;
    assert forall k :: 0 <= k < |a| ==> s[k] == a[k];
    assert forall k :: 0 <= k < |b| ==> s[|a| + k] == b[k];
    assert forall k :: 0 <= k < |c| ==> s[|a| + |b| + k] == c[k];
  }

  /** An entry starts with its name, or with the sign if it has none. */
  lemma {:induction false} EntryStart(s: Shape)
    requires Proper(s) && s.Entry?
    ensures Core(s) != "" && Core(s)[0] !in {';', '#', '['}
  {
    SpacesAreIn(s.gap, s.lead, s.trail);
    assert Core(s)[0] == (s.name + s.gap + [s.sign])[0];
  }

  lemma {:induction false} CoreReads(s: Shape)
    requires Proper(s)
    ensures ClassifyStripped(Core(s)) == Meaning(s)
  {
    match s
    case Empty =>
    case Comment(_, _) =>
    case Header(name, rest) => HeaderReads(name, rest);
    case OpenHeader(name, remark) => OpenHeaderReads(name, remark);
    case Entry(_, _, _, _, _, _, _) => EntryReads(s);
    case NoSign(name, remark) => NoSignReads(name, remark);
  }

  /** A line of a shape within any white space is read as what the shape means. A byte-order mark in front of
      the first line is skipped. */
  lemma {:induction false} ShapeReads(pre: string, s: Shape, post: string)
    requires AllIn(pre, SPACES) && Proper(s) && AllIn(post, SPACES)
    ensures var line := pre + Core(s) + post;
      && Classify(line, false) == Meaning(s)
      && Classify(BOM + line, true) == Meaning(s)
      && (!(BOM <= line) ==> Classify(line, true) == Meaning(s))
  {
    hide ClassifyStripped, RTrim, LTrim;
    var line := pre + Core(s) + post;
    TrimmedIs(pre, Core(s), post, SPACES);
    CoreReads(s);
    assert (BOM + line)[3..] == line;
  }

  // ----- every line has a shape

  /** Both parts around the place where a search stops. */
  lemma {:induction false} SearchSplits(s: string, chars: set<char>) returns (before: string, rest: string)
    ensures s == before + rest && |before| == Find(s, chars) && before == s[..|before|] && rest == s[|before|..]
    ensures NoComment(before) && forall k :: 0 <= k < |before| ==> before[k] !in chars
    ensures (rest != "" && rest[0] in chars) || Remark(before, rest)
  {
    hide Find, NoComment;
    var e := Find(s, chars);
    FindStops(s, chars);
    before, rest := s[..e], s[e..];
  }

  lemma {:induction false} ShapeOfHeader(t: string) returns (s: Shape)
    requires IsTrimmed(t, SPACES) && t != "" && t[0] == '['
    ensures Proper(s) && Core(s) == t
  {
    hide Find, NoComment, IsTrimmed;
    var name, rest := SearchSplits(t[1..], {']'});
    assert t == ['['] + (name + rest);
    if rest != "" && rest[0] == ']' {
      s := Header(name, rest[1..]);
      assert rest == [']'] + rest[1..];
    } else {
      s := OpenHeader(name, rest);
    }
    assert Core(s) == t;
  }

  lemma {:induction false} SplitRight(s: string) returns (t: string, post: string)
    ensures t == RTrim(s, SPACES) && s == t + post && AllIn(post, SPACES)
  {
    if s != "" && s[|s| - 1] in SPACES {
      var rest;
      t, rest := SplitRight(s[..|s| - 1]);
      post := rest + [s[|s| - 1]];
    } else {
      t, post := s, "";
    }
  }

  lemma {:induction false} SplitLeft(s: string) returns (pre: string, t: string)
    ensures t == LTrim(s, SPACES) && s == pre + t && AllIn(pre, SPACES)
  {
    t := LTrim(s, SPACES);
    pre := s[..|s| - |t|];
    LTrimCuts(s);
  }

  lemma {:induction false} LTrimCuts(s: string)
    ensures forall k :: 0 <= k < |s| - |LTrim(s, SPACES)| ==> s[k] in SPACES
  {
    if s != "" && s[0] in SPACES {
      LTrimCuts(s[1..]);
      forall k | 0 <= k < |s| - |LTrim(s, SPACES)|
        ensures s[k] in SPACES
      {
        assert k > 0 ==> s[k] == s[1..][k - 1];
      }
    }
  }

  /** The part behind the sign. */
  lemma {:induction false} SplitValue(v: string) returns (lead: string, value: string, trail: string, remark: string)
    ensures v == lead + value + trail + remark
    ensures AllIn(lead, SPACES) && AllIn(trail, SPACES) && IsTrimmed(value, SPACES)
    ensures NoComment(lead + value) && Remark(lead + value + trail, remark)
  {
    hide Find, RTrim, LTrim, NoComment, AllIn;
    var before, u;
    before, remark := SearchSplits(v, {});
    lead, u := SplitLeft(before);
    value, trail := SplitRight(u);
    assert before == (lead + value) + trail;
    NoCommentPrefix(before, |lead + value|);
    assert before[..|lead + value|] == lead + value;
    assert value != "" ==> value[0] == u[0];
  }

  lemma {:induction false} NoCommentPrefix(s: string, n: nat)
    requires NoComment(s) && n <= |s|
    ensures NoComment(s[..n])
  {
  }

  /** The part in front of the sign. */
  lemma {:induction false} SplitName(before: string) returns (name: string, gap: string)
    requires NoComment(before) && Unsigned(before) && NameStart(before)
    requires before == "" || before[0] !in SPACES
    ensures before == name + gap && AllIn(gap, SPACES) && IsTrimmed(name, SPACES)
    ensures NoComment(name) && Unsigned(name) && NameStart(name)
  {
    hide RTrim, NoComment, AllIn;
    name, gap := SplitRight(before);
    assert name == before[..|name|];
    NoCommentPrefix(before, |name|);
  }

  lemma {:induction false} ShapeOfEntry(t: string) returns (s: Shape)
    requires IsTrimmed(t, SPACES) && t != "" && t[0] !in {';', '#', '['}
    ensures Proper(s) && Core(s) == t
  {
    hide Find, RTrim, NoComment, AllIn, Remark, IsTrimmed;
    var before, rest := SearchSplits(t, {'=', ':'});
    BeginsWith(t, before, rest);
    if rest != "" && rest[0] in {'=', ':'} {
      var name, gap := SplitName(before);
      var lead, value, trail, remark := SplitValue(rest[1..]);
      s := Entry(name, gap, rest[0], lead, value, trail, remark);
      SpacesTogether(gap, lead, trail);
      assert rest == [rest[0]] + rest[1..];
      assert Core(s) == t;
    } else {
      s := NoSign(before, rest);
    }
  }

  lemma {:induction false} BeginsWith(t: string, before: string, rest: string)
    requires t == before + rest && IsTrimmed(t, SPACES) && t != "" && t[0] !in {';', '#', '['}
    ensures NameStart(before) && (before == "" || before[0] !in SPACES)
    ensures Remark(before, rest) ==> before != ""
  {
    assert before != "" ==> before[0] == t[0];
  }

  lemma {:induction false} SpacesTogether(a: string, b: string, c: string)
    requires AllIn(a, SPACES) && AllIn(b, SPACES) && AllIn(c, SPACES)
    ensures AllIn(a + b + c, SPACES)
  {
  }

  /** Every line is white space, something of a proper shape, and white space again. */
  lemma {:induction false} LineHasShape(line: string) returns (pre: string, s: Shape, post: string)
    ensures AllIn(pre, SPACES) && Proper(s) && AllIn(post, SPACES) && line == pre + Core(s) + post
  {
    hide Proper, Core, RTrim, LTrim, AllIn;
    var u, t;
    u, post := SplitRight(line);
    pre, t := SplitLeft(u);
    assert t == "" || t[|t| - 1] == u[|u| - 1];
    s := ShapeOf(t);
  }

  lemma {:induction false} ShapeOf(t: string) returns (s: Shape)
    requires IsTrimmed(t, SPACES)
    ensures Proper(s) && Core(s) == t
  {
    if t == "" {
      s := Empty;
    } else if t[0] == ';' || t[0] == '#' {
      s := Comment(t[0], t[1..]);
      assert t == [t[0]] + t[1..];
    } else if t[0] == '[' {
      s := ShapeOfHeader(t);
    } else {
      s := ShapeOfEntry(t);
    }
  }

  ghost predicate Written(line: string, r: Line) {
    exists pre, s, post ::
      AllIn(pre, SPACES) && Proper(s) && AllIn(post, SPACES) && line == pre + Core(s) + post && Meaning(s) == r
  }

  /** A line is read as something exactly when it is written that way, and the first one without its
      byte-order mark. */
  lemma {:induction false} ReadAsWritten(line: string, r: Line)
    ensures Classify(line, false) == r <==> Written(line, r)
    ensures Classify(line, true) == r <==> Written(if BOM <= line then line[3..] else line, r)
  {
    hide Stripped, ClassifyStripped;
    WrittenIs(line, r);
    var rest := if BOM <= line then line[3..] else line;
    WrittenIs(rest, r);
    SkipsMark(line);
  }

  lemma {:induction false} SkipsMark(line: string)
    ensures Classify(line, true) == Classify(if BOM <= line then line[3..] else line, false)
  {
    hide ClassifyStripped;
  }

  lemma {:induction false} WrittenIs(line: string, r: Line)
    ensures Classify(line, false) == r <==> Written(line, r)
  {
    hide Proper, Core, Meaning, Classify, AllIn;
    var pre, s, post := LineHasShape(line);
    ShapeReads(pre, s, post);
    if Written(line, r) {
      var pre', s', post' :|
        AllIn(pre', SPACES) && Proper(s') && AllIn(post', SPACES) && line == pre' + Core(s') + post' && Meaning(s') == r;
      ShapeReads(pre', s', post');
    }
  }
}
