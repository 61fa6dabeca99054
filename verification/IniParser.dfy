/** The INI parser as it runs: a line buffer cut up by writing NULs into it
    (src/lib/ini/ini.c:48-94, 97-241, 265-298). */
module IniParser {
  import opened CString
  import opened Trim
  import opened Ini

  /** The C string `t` stands at `at` in the memory `m`. */
  predicate Holds(m: string, at: nat, t: string) {
    at + |t| < |m| && m[at..at + |t|] == t && m[at + |t|] == NUL && NUL !in t
  }

  lemma {:induction false} HeldBytes(m: string, at: nat, t: string)
    requires Holds(m, at, t)
    ensures at + |t| < |m| && m[at + |t|] == NUL
    ensures forall k :: 0 <= k < |t| ==> m[at + k] == t[k] && t[k] != NUL
  {
    forall k | 0 <= k < |t|
      ensures m[at + k] == t[k]
    {
      assert m[at..at + |t|][k] == t[k];
    }
  }

  lemma {:induction false} HeldIsRead(m: string, at: nat, t: string)
    requires Holds(m, at, t)
    ensures CStr(m[at..]) == t
  {
    assert m[at..] == t + m[at + |t|..];
    CStrOf(t, m[at + |t|..]);
  }

  /** The string from a pointer into it. */
  lemma {:induction false} HeldTail(m: string, at: nat, t: string, k: nat)
    requires Holds(m, at, t) && k <= |t|
    ensures Holds(m, at + k, t[k..])
  {
    assert m[at + k..at + |t|] == m[at..at + |t|][k..];
  }

  /** A NUL at `k` cuts the string in front of it, and leaves what is behind it. */
  lemma {:induction false} HeldCut(m: string, at: nat, t: string, k: nat, m': string)
    requires Holds(m, at, t) && k <= |t| && m' == m[at + k := NUL]
    ensures Holds(m', at, t[..k])
    ensures k < |t| ==> Holds(m', at + k + 1, t[k + 1..])
  {
    assert m'[at..at + k] == m[at..at + |t|][..k];
    if k < |t| {
      assert m'[at + k + 1..at + |t|] == m[at..at + |t|][k + 1..];
    }
  }

  /** Memory that changed elsewhere only. */
  lemma {:induction false} HeldStill(m: string, at: nat, t: string, m': string)
    requires Holds(m, at, t) && |m'| == |m|
    requires forall k :: at <= k <= at + |t| ==> m'[k] == m[k]
    ensures Holds(m', at, t)
  {
    assert m'[at..at + |t|] == m[at..at + |t|];
  }

  /** What stands once the white space behind index `k` is blanked. */
  lemma {:induction false} HeldStripped(m: string, at: nat, t: string, k: nat, m': string)
    requires Holds(m, at, t) && k <= |t| && |m'| == |m|
    requires forall i :: 0 <= i < at + k ==> m'[i] == m[i]
    requires m'[at + k] == NUL
    requires forall i :: k <= i < |t| ==> t[i] in SPACES
    requires k > 0 ==> t[k - 1] !in SPACES
    ensures Holds(m', at, RTrim(t, SPACES))
  {
    hide RTrim;
    RTrimStopsAt(t, k, SPACES);
    assert m'[at..at + k] == m[at..at + |t|][..k];
  }

  /** rstrip: NULs from the end of the string while it ends in white space. */
  method Rstrip(s: array<char>, at: nat, ghost t: string)
    requires Holds(s[..], at, t)
    modifies s
    ensures Holds(s[..], at, RTrim(t, SPACES))
    ensures forall k :: 0 <= k < at || at + |t| <= k < s.Length ==> s[k] == old(s[k])
  {
    hide RTrim, CStr;
    ghost var m := s[..];
    HeldBytes(m, at, t);
    HeldIsRead(m, at, t);
    assert s[at..] == m[at..];
    var p := at + |CStr(s[at..])|;
    while p > at && s[p - 1] in SPACES
      invariant at <= p <= at + |t|
      invariant forall k :: 0 <= k < p || at + |t| <= k < s.Length ==> s[k] == m[k]
      invariant s[p] == NUL
      invariant forall k :: p - at <= k < |t| ==> t[k] in SPACES
    {
      assert s[p - 1] == m[at + (p - 1 - at)] == t[p - 1 - at];
      p := p - 1;
      s[p] := NUL;
    }
    assert p > at ==> s[p - 1] == m[at + (p - 1 - at)] == t[p - 1 - at];
    HeldStripped(m, at, t, p - at, s[..]);
  }

  /** lskip: the first byte that is not white space. */
  method Lskip(s: array<char>, at: nat, ghost t: string) returns (p: nat)
    requires Holds(s[..], at, t)
    ensures p == at + |t| - |LTrim(t, SPACES)| && Holds(s[..], p, LTrim(t, SPACES))
  {
    hide LTrim, Holds;
    ghost var m := s[..];
    HeldBytes(m, at, t);
    p := at;
    while s[p] != NUL && s[p] in SPACES
      invariant at <= p <= at + |t|
      invariant forall k :: 0 <= k < p - at ==> t[k] in SPACES
      decreases at + |t| - p
    {
      assert s[p] == m[at + (p - at)] == t[p - at];
      p := p + 1;
    }
    assert p < at + |t| ==> s[p] == m[at + (p - at)] == t[p - at];
    LTrimStopsAt(t, p - at, SPACES);
    HeldTail(m, at, t, p - at);
  }

  /** find_chars_or_comment; no chars to look for is the NULL of the last call. */
  method FindCharsOrComment(s: array<char>, at: nat, chars: set<char>, ghost t: string) returns (p: nat)
    requires Holds(s[..], at, t)
    ensures p == at + Find(t, chars)
  {
    HeldBytes(s[..], at, t);
    var wasSpace := false;
    p := at;
    while s[p] != NUL && s[p] !in chars && !(wasSpace && s[p] == ';')
      invariant at <= p <= at + |t|
      invariant FindFrom(t, chars, p - at, wasSpace) == Find(t, chars)
      decreases at + |t| - p
    {
      wasSpace := s[p] in SPACES;
      p := p + 1;
    }
  }

  /** strncpy0: at most size - 1 bytes, and always a NUL. */
  method StrNCopy0(dest: array<char>, src: string, size: nat)
    requires 0 < size <= dest.Length && NUL !in src
    modifies dest
    ensures Holds(dest[..], 0, Take(src, size - 1))
  {
    var i := 0;
    while i < size - 1 && i < |src|
      invariant i <= size - 1 && i <= |src| && dest[..i] == src[..i]
    {
      dest[i] := src[i];
      i := i + 1;
    }
    dest[i] := NUL;
    assert dest[..][0..i] == src[..i] == Take(src, size - 1);
  }

  method Cut(s: array<char>, p: nat)
    requires p < s.Length
    modifies s
    ensures s[..] == old(s[..])[p := NUL]
  {
    s[p] := NUL;
  }

  method ReadString(s: array<char>, at: nat, ghost t: string) returns (r: string)
    requires Holds(s[..], at, t)
    ensures r == t
  {
    HeldIsRead(s[..], at, t);
    assert s[at..] == s[..][at..];
    r := CStr(s[at..]);
  }

  // ----- the reader

  /** ini_reader_string. */
  class StringReader {
    const text: string
    var ptr: nat

    constructor (text: string)
      ensures this.text == text && ptr == 0
    {
      this.text := text;
      ptr := 0;
    }

    method Read(str: array<char>, num: nat) returns (ok: bool)
      requires num == str.Length == MAX_LINE && ptr <= |text| && NUL !in text
      modifies this`ptr, str
      ensures ok <==> old(ptr) < |text|
      ensures !ok ==> ptr == old(ptr)
      ensures ok ==> ptr == ChunkEnd(text, old(ptr)) && Holds(str[..], 0, text[old(ptr)..ptr])
      ensures ptr <= |text|
    {
      var left := |text| - ptr;
      if left == 0 || num < 2 {
        return false;
      }
      ghost var from := ptr;
      var p := ptr;
      var strp := 0;
      var room := num;
      while room > 1 && left != 0
        invariant strp == p - from == num - room && left == |text| - p && from <= p <= |text| && 1 <= room
        invariant str[..strp] == text[from..p]
        invariant forall k :: from <= k < p ==> text[k] != '\n'
        decreases left
      {
        var c := text[p];
        p := p + 1;
        left := left - 1;
        str[strp] := c;
        strp := strp + 1;
        if c == '\n' {
          IndexFromIs(text, '\n', from, p - 1);
          break;
        }
        room := room - 1;
      }
      ReadEnds(text, from, p);
      str[strp] := NUL;
      assert str[..][0..strp] == text[from..p];
      ptr := p;
      return true;
    }
  }

  /** Where the copying loop stops is where the chunk ends. */
  lemma {:induction false} ReadEnds(text: string, from: nat, p: nat)
    requires from < p <= |text| && p - from < MAX_LINE
    requires p == |text| || p - from == MAX_LINE - 1 || text[p - 1] == '\n'
    requires forall k :: from <= k < p - 1 ==> text[k] != '\n'
    ensures p == ChunkEnd(text, from)
  {
    var newline := IndexFrom(text, '\n', from);
    if text[p - 1] == '\n' {
      IndexFromIs(text, '\n', from, p - 1);
    } else {
      assert newline >= p;
    }
  }

  // ----- one line, in place

  /** The name up to the delimiter at `e`, and the value behind it, each cut out and stripped. */
  method ReadPair(line: array<char>, start: nat, e: nat, ghost t: string) returns (name: string, value: string)
    requires Holds(line[..], start, t) && start <= e < start + |t|
    modifies line
    ensures name == RTrim(t[..e - start], SPACES)
    ensures value == ValueOf(t[e - start + 1..])
  {
    hide RTrim, LTrim, Find;
    ghost var k := e - start;
    ghost var m := line[..];
    Cut(line, e);
    HeldCut(m, start, t, k, line[..]);
    ghost var n, v := t[..k], t[k + 1..];
    ghost var m1 := line[..];
    Rstrip(line, start, n);
    HeldStill(m1, e + 1, v, line[..]);
    name := ReadString(line, start, RTrim(n, SPACES));
    value := ReadValue(line, e + 1, v);
  }

  method ReadValue(line: array<char>, at: nat, ghost v: string) returns (value: string)
    requires Holds(line[..], at, v)
    modifies line
    ensures value == ValueOf(v)
  {
    hide RTrim, LTrim, Find;
    var end := FindCharsOrComment(line, at, {}, v);
    ghost var m := line[..];
    ghost var cut := v[..Find(v, {})];
    if line[end] != NUL {
      Cut(line, end);
    }
    assert line[..] == m[end := NUL];
    HeldCut(m, at, v, end - at, line[..]);
    var start := Lskip(line, at, cut);
    Rstrip(line, start, LTrim(cut, SPACES));
    value := ReadString(line, start, RTrim(LTrim(cut, SPACES), SPACES));
  }

  /** The section name up to the `]` at `e`. */
  method ReadSection(line: array<char>, start: nat, e: nat, ghost t: string) returns (name: string)
    requires Holds(line[..], start, t) && start < e < start + |t|
    modifies line
    ensures name == Take(t[1..e - start], MAX_SECTION - 1)
  {
    ghost var m := line[..];
    Cut(line, e);
    HeldCut(m, start, t, e - start, line[..]);
    ghost var s := t[..e - start];
    HeldTail(line[..], start, s, 1);
    var raw := ReadString(line, start + 1, s[1..]);
    var section := new char[MAX_SECTION](_ => NUL);
    assert raw == t[1..e - start];
    HeldBytes(m, start, t);
    assert NUL !in raw;
    StrNCopy0(section, raw, MAX_SECTION);
    name := ReadString(section, 0, Take(raw, MAX_SECTION - 1));
  }

  /** The body of the parsing loop up to the handler call. */
  method ReadLine(line: array<char>, lineno: nat, ghost chunk: string) returns (r: Line)
    requires Holds(line[..], 0, chunk)
    modifies line
    ensures r == Classify(chunk, lineno == 1)
  {
    hide RTrim, LTrim, ClassifyStripped, Find;
    var start := 0;
    ghost var from := chunk;
    HeldBytes(line[..], 0, chunk);
    HasBom(line[..], chunk);
    if lineno == 1 && line[0] == BOM[0] && line[1] == BOM[1] && line[2] == BOM[2] {
      start := 3;
      HeldTail(line[..], 0, chunk, 3);
      from := chunk[3..];
    }
    Rstrip(line, start, from);
    start := Lskip(line, start, RTrim(from, SPACES));
    r := ReadStripped(line, start, Stripped(chunk, lineno == 1));
  }

  lemma {:induction false} HasBom(m: string, chunk: string)
    requires Holds(m, 0, chunk)
    ensures m[0] == BOM[0] ==> 1 < |m|
    ensures m[0] == BOM[0] && m[1] == BOM[1] ==> 2 < |m|
    ensures (m[0] == BOM[0] && m[1] == BOM[1] && m[2] == BOM[2]) <==> BOM <= chunk
  {
    HeldBytes(m, 0, chunk);
    assert |chunk| == 0 ==> m[0] == NUL;
    assert |chunk| == 1 ==> m[1] == NUL;
    assert |chunk| == 2 ==> m[2] == NUL;
    if |chunk| >= 3 {
      assert chunk[0] == m[0 + 0] && chunk[1] == m[0 + 1] && chunk[2] == m[0 + 2];
    }
  }

  method ReadStripped(line: array<char>, start: nat, ghost t: string) returns (r: Line)
    requires Holds(line[..], start, t)
    modifies line
    ensures r == ClassifyStripped(t)
  {
    hide RTrim, LTrim, Find, ValueOf;
    HeldBytes(line[..], start, t);
    assert t != "" ==> line[start] == t[0];
    if line[start] == NUL || line[start] in {';', '#'} {
      return Ignored;
    } else if line[start] == '[' {
      HeldTail(line[..], start, t, 1);
      var end := FindCharsOrComment(line, start + 1, {']'}, t[1..]);
      ghost var k := end - start;
      assert k < |t| ==> line[end] == t[k];
      if line[end] == ']' {
        var name := ReadSection(line, start, end, t);
        return Section(name);
      } else {
        return Malformed;
      }
    } else {
      var end := FindCharsOrComment(line, start, {'=', ':'}, t);
      ghost var k := end - start;
      assert k < |t| ==> line[end] == t[k];
      if line[end] == '=' || line[end] == ':' {
        var name, value := ReadPair(line, start, end, t);
        return Pair(name, value);
      } else {
        return Malformed;
      }
    }
  }

  /** ini_parse_stream over a string: the calls made, and the number of the first bad line. */
  method ParseStream(text: string, accept: Handler) returns (error: nat, calls: seq<Call>)
    requires NUL !in text
    ensures (calls, error) == (ParseText(text, accept).calls, ParseText(text, accept).error)
  {
    hide Classify, ChunkEnd;
    var line := new char[MAX_LINE](_ => NUL);
    var section := "";
    error, calls := 0, [];
    var lineno := 0;
    var reader := new StringReader(text);
    ghost var goal := ParseText(text, accept);
    while true
      invariant reader.text == text && reader.ptr <= |text|
      invariant Parse(Parser(section, calls, error), Chunks(text, reader.ptr), lineno, accept) == goal
      decreases |text| - reader.ptr
    {
      ghost var from := reader.ptr;
      var more := reader.Read(line, MAX_LINE);
      if !more {
        break;
      }
      lineno := lineno + 1;
      ghost var chunk := text[from..reader.ptr];
      assert Chunks(text, from) == [chunk] + Chunks(text, reader.ptr);
      assert ([chunk] + Chunks(text, reader.ptr))[1..] == Chunks(text, reader.ptr);
      var r := ReadLine(line, lineno, chunk);
      match r
      case Ignored =>
      case Section(name) => section := name;
      case Malformed =>
        if error == 0 {
          error := lineno;
        }
      case Pair(name, value) =>
        var call := Call(section, name, value);
        var accepted := accept(calls, call);
        calls := calls + [call];
        if !accepted && error == 0 {
          error := lineno;
        }
    }
  }
}
