/** C strings as sequences of bytes. One `char` stands for one byte; the theorems
    built on this module hold for every alphabet that contains ASCII, and so for bytes. */
module CString {

  const NUL := '\0'

  /** What strchr and memchr look for: the least index at or after `from` that holds `c`,
      or the length of `s` when there is none. */
  function IndexFrom(s: string, c: char, from: nat): (i: nat)
    requires from <= |s|
    ensures from <= i <= |s|
    ensures i < |s| ==> s[i] == c
    ensures forall k :: from <= k < i ==> s[k] != c
    decreases |s| - from
  {
    if from == |s| || s[from] == c then from else IndexFrom(s, c, from + 1)
  }

  /** The bytes of `s` before its first NUL. */
  function CStr(s: string): (t: string)
    ensures t <= s
  {
    s[..IndexFrom(s, NUL, 0)]
  }

  lemma {:induction false} CStrHasNoNul(s: string)
    ensures NUL !in CStr(s)
  {
  }

  /** The first `n` bytes of `s`, what vsnprintf keeps of it in a buffer of n + 1 bytes. */
  function Take(s: string, n: nat): (t: string)
    ensures t <= s && |t| == if |s| <= n then |s| else n
  {
    if |s| <= n then s else s[..n]
  }

  function Zeros(n: nat): (z: string)
    ensures |z| == n && forall k :: 0 <= k < n ==> z[k] == NUL
  {
    seq(n, _ => NUL)
  }

  /** A search is fixed by what it finds: nothing before `i`, and `c` or the end at `i`. */
  lemma {:induction false} IndexFromIs(s: string, c: char, from: nat, i: nat)
    requires from <= i <= |s|
    requires forall k :: from <= k < i ==> s[k] != c
    requires i < |s| ==> s[i] == c
    ensures IndexFrom(s, c, from) == i
  {
    var j := IndexFrom(s, c, from);
    assert j == i || j < i || i < j;
  }

  /** A NUL-free string followed by a NUL reads back as itself. */
  lemma {:induction false} CStrOf(t: string, rest: string)
    requires NUL !in t
    requires rest == "" || rest[0] == NUL
    ensures CStr(t + rest) == t
  {
    IndexFromIs(t + rest, NUL, 0, |t|);
  }

  lemma {:induction false} SplitInFour(m: string, a: nat, b: nat, c: nat)
    requires a <= b <= c <= |m|
    ensures m == m[..a] + m[a..b] + m[b..c] + m[c..]
  {
    assert m == m[..c] + m[c..];
    assert m[..c] == m[..b] + m[b..c];
    assert m[..b] == m[..a] + m[a..b];
  }
}
