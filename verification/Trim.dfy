/** src/lib/trim/trim.c: removing blanks from the ends of a C string in place. */
module Trim {
  import opened CString

  /** The six bytes trimmed when the caller passes no set of its own. */
  const BLANKS: set<char> := {'\t', '\n', '\U{0B}', '\U{0C}', '\r', ' '}

  function LTrim(s: string, seps: set<char>): (t: string)
    ensures |t| <= |s| && t == s[|s| - |t|..]
    ensures t == "" || t[0] !in seps
  {
    if s != "" && s[0] in seps then LTrim(s[1..], seps) else s
  }

  function RTrim(s: string, seps: set<char>): (t: string)
    ensures t <= s
    ensures t == "" || t[|t| - 1] !in seps
  {
    if s != "" && s[|s| - 1] in seps then RTrim(s[..|s| - 1], seps) else s
  }

  function Trimmed(s: string, seps: set<char>): (t: string)
    ensures |t| <= |s|
    ensures t == "" || (t[0] !in seps && t[|t| - 1] !in seps)
  {
    LTrim(RTrim(s, seps), seps)
  }

  /** No separator at either end. */
  predicate IsTrimmed(s: string, seps: set<char>) {
    s == "" || (s[0] !in seps && s[|s| - 1] !in seps)
  }

  predicate AllIn(s: string, seps: set<char>) {
    forall k :: 0 <= k < |s| ==> s[k] in seps
  }

  lemma {:induction false} RTrimIs(t: string, post: string, seps: set<char>)
    requires AllIn(post, seps)
    requires t == "" || t[|t| - 1] !in seps
    ensures RTrim(t + post, seps) == t
  {
    if post == "" {
      assert t + post == t;
    } else {
      var s := t + post;
      assert s[|s| - 1] == post[|post| - 1];
      assert s[..|s| - 1] == t + post[..|post| - 1];
      RTrimIs(t, post[..|post| - 1], seps);
    }
  }

  lemma {:induction false} LTrimIs(pre: string, t: string, seps: set<char>)
    requires AllIn(pre, seps)
    requires t == "" || t[0] !in seps
    ensures LTrim(pre + t, seps) == t
  {
    if pre == "" {
      assert pre + t == t;
    } else {
      assert (pre + t)[1..] == pre[1..] + t;
      LTrimIs(pre[1..], t, seps);
    }
  }

  /** Whatever is wrapped in separators, trimming gives back the trimmed middle. */
  lemma {:induction false} TrimmedIs(pre: string, t: string, post: string, seps: set<char>)
    requires AllIn(pre, seps) && AllIn(post, seps)
    requires IsTrimmed(t, seps)
    ensures Trimmed(pre + t + post, seps) == t
  {
    if t == "" {
      assert AllIn(pre + post, seps);
      assert pre + t + post == "" + (pre + post);
      RTrimIs("", pre + post, seps);
    } else {
      RTrimIs(pre + t, post, seps);
      LTrimIs(pre, t, seps);
    }
  }

  /** A separator in front changes nothing for ltrim, and for rtrim only when something is kept. */
  lemma {:induction false} RTrimCons(c: char, s: string, seps: set<char>)
    requires c in seps
    ensures RTrim([c] + s, seps) == if RTrim(s, seps) == "" then "" else [c] + RTrim(s, seps)
  {
    if s != "" {
      assert ([c] + s)[|s|] == s[|s| - 1];
      if s[|s| - 1] in seps {
        assert ([c] + s)[..|s|] == [c] + s[..|s| - 1];
        RTrimCons(c, s[..|s| - 1], seps);
      }
    } else {
      assert ([c] + s)[..0] == "";
    }
  }

  lemma {:induction false} TrimmedCons(c: char, s: string, seps: set<char>)
    requires c in seps
    ensures Trimmed([c] + s, seps) == Trimmed(s, seps)
  {
    RTrimCons(c, s, seps);
    var r := RTrim(s, seps);
    assert ([c] + r)[1..] == r;
  }

  lemma {:induction false} TrimmedSelf(s: string, seps: set<char>)
    requires IsTrimmed(s, seps)
    ensures Trimmed(s, seps) == s
  {
  }

  /** Memory after rtrim at `at`: the cut bytes of the string `s` found there become NUL. */
  function RTrimMemory(m: string, at: nat, seps: set<char>): (m': string)
    requires at <= |m|
    ensures |m'| == |m|
  {
    var s := CStr(m[at..]);
    var r := RTrim(s, seps);
    m[..at] + r + Zeros(|s| - |r|) + m[at + |s|..]
  }

  /** Memory after ltrim at `at`: the kept tail and its NUL move down, the bytes after them stay. */
  function LTrimMemory(m: string, at: nat, seps: set<char>): (m': string)
    requires at < |m| && NUL in m[at..]
    ensures |m'| == |m|
  {
    var s := CStr(m[at..]);
    var t := LTrim(s, seps);
    m[..at] + t + [NUL] + m[at + |t| + 1..]
  }

  lemma {:induction false} CStrStopsInside(m: string)
    requires NUL in m
    ensures |CStr(m)| < |m| && m[|CStr(m)|] == NUL
  {
    var k :| 0 <= k < |m| && m[k] == NUL;
    assert IndexFrom(m, NUL, 0) <= k;
  }

  /** Memory that holds `t` and its NUL at `at` and is `m` elsewhere. */
  lemma {:induction false} MovedMemory(m: string, at: nat, t: string, m': string)
    requires at + |t| < |m| == |m'|
    requires forall k :: 0 <= k < at || at + |t| < k < |m| ==> m'[k] == m[k]
    requires m'[at..at + |t| + 1] == t + [NUL]
    ensures m' == m[..at] + t + [NUL] + m[at + |t| + 1..]
  {
    SplitInFour(m', at, at + |t| + 1, at + |t| + 1);
    assert m'[..at] == m[..at];
    assert m'[at + |t| + 1..at + |t| + 1] == [];
    assert m[..at] + (t + [NUL]) == m[..at] + t + [NUL];
    assert m'[at + |t| + 1..] == m[at + |t| + 1..];
  }

  /** The bytes of a string in memory, and the NUL that ends it. */
  lemma {:induction false} StringAt(m: string, at: nat)
    requires at < |m| && NUL in m[at..]
    ensures var s := CStr(m[at..]);
      at + |s| < |m| && m[at + |s|] == NUL && m[at..at + |s|] == s &&
      forall k :: 0 <= k < |s| ==> m[at + k] == s[k] && s[k] != NUL
  {
    CStrStopsInside(m[at..]);
  }

  /** memmove(str + to, str + from, n) towards the front. */
  method MoveDown(str: array<char>, to: nat, from: nat, n: nat)
    requires to <= from && from + n <= str.Length
    modifies str
    ensures forall k :: 0 <= k < to || to + n <= k < str.Length ==> str[k] == old(str[k])
    ensures str[to..to + n] == old(str[from..from + n])
  {
    forall k | to <= k < to + n {
      str[k] := str[k + (from - to)];
    }
  }

  /** The kept tail of the string and its NUL, where they stand before they move. */
  lemma {:induction false} KeptBytes(m: string, at: nat, s: string, t: string)
    requires at + |s| < |m| && m[at..at + |s|] == s && m[at + |s|] == NUL
    requires |t| <= |s| && t == s[|s| - |t|..]
    ensures m[at + |s| - |t|..at + |s| + 1] == t + [NUL]
  {
    assert m[at + |s| - |t|..at + |s|] == m[at..at + |s|][|s| - |t|..];
  }

  /** Cuts `totrim` of the `len` bytes of the string at `at` off its front: nothing, everything,
      or the rest moves down together with its NUL. */
  method CutFront(str: array<char>, at: nat, totrim: nat, len: nat)
    requires totrim <= len && at + len < str.Length && str[at + len] == NUL
    modifies str
    ensures str[at..at + (len - totrim) + 1] == old(str[at + totrim..at + len + 1])
    ensures forall k :: 0 <= k < at || at + (len - totrim) < k < str.Length ==> str[k] == old(str[k])
  {
    if totrim > 0 {
      if totrim == len {
        str[at] := NUL;
      } else {
        MoveDown(str, at, at + totrim, len + 1 - totrim);
      }
    }
  }

  method LTrimInPlace(str: array<char>, at: nat, seps: set<char>)
    requires at < str.Length && NUL in str[at..]
    modifies str
    ensures str[..] == LTrimMemory(old(str[..]), at, seps)
  {
    hide LTrim, CStr;
    ghost var m := str[..];
    assert m[at..] == str[at..];
    StringAt(m, at);
    var s := CStr(str[at..]);
    ghost var t := LTrim(s, seps);
    KeptBytes(m, at, s, t);
    CutFront(str, at, |s| - |LTrim(s, seps)|, |s|);
    assert str[..][at..at + |t| + 1] == str[at..at + |t| + 1] == t + [NUL];
    MovedMemory(m, at, t, str[..]);
  }

  lemma {:induction false} RTrimStopsAt(s: string, i: nat, seps: set<char>)
    requires i <= |s|
    requires i > 0 ==> s[i - 1] !in seps
    requires forall k :: i <= k < |s| ==> s[k] in seps
    ensures RTrim(s, seps) == s[..i]
  {
    assert s[..i] + s[i..] == s;
    RTrimIs(s[..i], s[i..], seps);
  }

  lemma {:induction false} LTrimStopsAt(s: string, i: nat, seps: set<char>)
    requires i <= |s|
    requires i < |s| ==> s[i] !in seps
    requires forall k :: 0 <= k < i ==> s[k] in seps
    ensures LTrim(s, seps) == s[i..]
  {
    assert s[..i] + s[i..] == s;
    LTrimIs(s[..i], s[i..], seps);
  }

  /** Memory that differs from `m` only by NULs behind the first `i` bytes of the string at `at`. */
  lemma {:induction false} BlankedMemory(m: string, at: nat, i: nat, s: string, m': string)
    requires at + |s| <= |m| == |m'| && i <= |s| && m[at..at + |s|] == s
    requires forall k :: 0 <= k < at + i || at + |s| <= k < |m| ==> m'[k] == m[k]
    requires forall k :: at + i <= k < at + |s| ==> m'[k] == NUL
    ensures m' == m[..at] + s[..i] + Zeros(|s| - i) + m[at + |s|..]
  {
    SplitInFour(m', at, at + i, at + |s|);
    assert m'[..at] == m[..at];
    assert m'[at..at + i] == m[at..at + |s|][..i];
    assert m'[at + i..at + |s|] == Zeros(|s| - i);
    assert m'[at + |s|..] == m[at + |s|..];
  }

  lemma {:induction false} RTrimMemoryIs(m: string, at: nat, i: nat, seps: set<char>, m': string)
    requires at < |m| == |m'| && NUL in m[at..]
    requires var s := CStr(m[at..]);
      && i <= |s| && (i > 0 ==> s[i - 1] !in seps) && (forall k :: i <= k < |s| ==> s[k] in seps)
      && (forall k :: 0 <= k < at + i || at + |s| <= k < |m| ==> m'[k] == m[k])
      && (forall k :: at + i <= k < at + |s| ==> m'[k] == NUL)
    ensures m' == RTrimMemory(m, at, seps)
  {
    StringAt(m, at);
    var s := CStr(m[at..]);
    RTrimStopsAt(s, i, seps);
    BlankedMemory(m, at, i, s, m');
  }

  /** Walks back from the end of the string, writing NUL over every separator it meets. */
  method RTrimInPlace(str: array<char>, at: nat, seps: set<char>)
    requires at < str.Length && NUL in str[at..]
    requires NUL !in seps
    modifies str
    ensures str[..] == RTrimMemory(old(str[..]), at, seps)
  {
    ghost var m := str[..];
    assert m[at..] == str[at..];
    StringAt(m, at);
    var s := CStr(str[at..]);
    var i := |s| - 1;
    while i >= 0 && str[at + i] in seps
      invariant -1 <= i < |s|
      invariant forall k :: 0 <= k <= at + i || at + |s| <= k < |m| ==> str[k] == m[k]
      invariant forall k :: at + i < k < at + |s| ==> str[k] == NUL
      invariant forall k :: i < k < |s| ==> s[k] in seps
    {
      str[at + i] := NUL;
      i := i - 1;
    }
    RTrimMemoryIs(m, at, i + 1, seps, str[..]);
  }

  method TrimInPlace(str: array<char>, at: nat, seps: set<char>)
    requires at < str.Length && NUL in str[at..]
    requires NUL !in seps
    modifies str
    ensures at < str.Length && NUL in RTrimMemory(old(str[..]), at, seps)[at..]
    ensures str[..] == LTrimMemory(RTrimMemory(old(str[..]), at, seps), at, seps)
  {
    ghost var m := str[..];
    assert m[at..] == str[at..];
    CStrStopsInside(m[at..]);
    RTrimInPlace(str, at, seps);
    ghost var m' := str[..];
    assert m'[|m| - (|m| - at - |CStr(m[at..])|)] == NUL;
    assert m'[at..][|CStr(m[at..])|] == NUL;
    assert str[at..] == m'[at..];
    LTrimInPlace(str, at, seps);
  }

  lemma {:induction false} RTrimmedString(m: string, at: nat, seps: set<char>)
    requires at < |m| && NUL in m[at..]
    ensures NUL in RTrimMemory(m, at, seps)[at..]
    ensures CStr(RTrimMemory(m, at, seps)[at..]) == RTrim(CStr(m[at..]), seps)
  {
    hide RTrim, CStr;
    StringAt(m, at);
    CStrHasNoNul(m[at..]);
    var s := CStr(m[at..]);
    var r := RTrim(s, seps);
    var rest := Zeros(|s| - |r|) + m[at + |s|..];
    assert RTrimMemory(m, at, seps) == m[..at] + (r + rest);
    assert (m[..at] + (r + rest))[at..] == r + rest;
    assert (r + rest)[|r|] == NUL;
    CStrOf(r, rest);
  }

  lemma {:induction false} LTrimmedString(m: string, at: nat, seps: set<char>)
    requires at < |m| && NUL in m[at..]
    ensures CStr(LTrimMemory(m, at, seps)[at..]) == LTrim(CStr(m[at..]), seps)
  {
    hide LTrim, CStr;
    StringAt(m, at);
    CStrHasNoNul(m[at..]);
    var t := LTrim(CStr(m[at..]), seps);
    var rest := [NUL] + m[at + |t| + 1..];
    assert LTrimMemory(m, at, seps) == m[..at] + (t + rest);
    assert (m[..at] + (t + rest))[at..] == t + rest;
    CStrOf(t, rest);
  }

  /** After trim the pointer it was given holds the trimmed string. */
  lemma {:induction false} TrimmedString(m: string, at: nat, seps: set<char>)
    requires at < |m| && NUL in m[at..]
    ensures NUL in RTrimMemory(m, at, seps)[at..]
    ensures CStr(LTrimMemory(RTrimMemory(m, at, seps), at, seps)[at..]) == Trimmed(CStr(m[at..]), seps)
  {
    hide LTrim, RTrim, CStr, RTrimMemory, LTrimMemory;
    RTrimmedString(m, at, seps);
    LTrimmedString(RTrimMemory(m, at, seps), at, seps);
  }

  /** The six bytes that count as blanks. */
  lemma {:induction false} BlanksAreTrimmed()
    ensures Trimmed("\t\n\U{0B}\U{0C}\r a b \r\U{0C}\U{0B}\n\t", BLANKS) == "a b"
  {
    hide RTrim, LTrim, Trimmed;
    var pre, post := "\t\n\U{0B}\U{0C}\r ", " \r\U{0C}\U{0B}\n\t";
    assert AllIn(pre, BLANKS) && AllIn(post, BLANKS);
    assert pre + "a b" + post == "\t\n\U{0B}\U{0C}\r a b \r\U{0C}\U{0B}\n\t";
    TrimmedIs(pre, "a b", post, BLANKS);
  }
}
