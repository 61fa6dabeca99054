/** The pattern that nicknames are validated with, src/server/server.c:46 and 648-658, and what it matches. */
module NicknamePattern {
  import Session

  /** As much of the regular expressions as the pattern uses. */
  datatype Regex = One(of: set<char>) | Then(first: Regex, second: Regex) | Times(what: Regex, least: nat, most: nat)

  ghost predicate Matches(r: Regex, s: string)
    decreases r, 0
  {
    match r
    case One(cs) => |s| == 1 && s[0] in cs
    case Then(first, second) => exists i :: 0 <= i <= |s| && Matches(first, s[..i]) && Matches(second, s[i..])
    case Times(what, least, most) => exists n: nat :: least <= n <= most && MatchesTimes(what, n, s)
  }

  ghost predicate MatchesTimes(r: Regex, n: nat, s: string)
    decreases r, 1, n
  {
    if n == 0 then s == ""
    else exists i :: 0 <= i <= |s| && Matches(r, s[..i]) && MatchesTimes(r, n - 1, s[i..])
  }

  const LOWER: set<char> := set c: char | 'a' <= c <= 'z'
  const UPPER: set<char> := set c: char | 'A' <= c <= 'Z'
  const DIGIT: set<char> := set c: char | '0' <= c <= '9'
  const ALPHA: set<char> := LOWER + UPPER
  const ALNUM: set<char> := ALPHA + DIGIT

  /** `^[[:alpha:]][[:alnum:]!@#$%&]\{1,14\}$` in ASCII: the anchors make it match the whole name. */
  const PATTERN: Regex := Then(One(ALPHA), Times(One(ALNUM + {'!', '@', '#', '$', '%', '&'}), 1, 14))

  lemma {:induction false} TimesOne(cs: set<char>, n: nat, s: string)
    ensures MatchesTimes(One(cs), n, s) <==> |s| == n && forall i :: 0 <= i < n ==> s[i] in cs
    decreases n
  {
    if n > 0 {
      if s != "" {
        TimesOne(cs, n - 1, s[1..]);
        assert s[..1] == [s[0]];
        if |s| == n && forall i :: 0 <= i < n ==> s[i] in cs {
          assert Matches(One(cs), s[..1]);
        }
      }
      if MatchesTimes(One(cs), n, s) {
        var i :| 0 <= i <= |s| && Matches(One(cs), s[..i]) && MatchesTimes(One(cs), n - 1, s[i..]);
        assert i == 1;
        assert s[0] == s[..1][0];
        assert forall k :: 0 < k < |s| ==> s[k] == s[1..][k - 1];
      }
    }
  }

  lemma {:induction false} TimesIs(what: Regex, least: nat, most: nat, s: string)
    requires Matches(Times(what, least, most), s)
    ensures exists n: nat :: least <= n <= most && MatchesTimes(what, n, s)
  {
  }

  /** A byte of one class and 1 to 14 of another. */
  predicate IsWord(s: string, a: set<char>, b: set<char>) {
    2 <= |s| <= 15 && s[0] in a && forall i :: 1 <= i < |s| ==> s[i] in b
  }

  lemma {:induction false} WordMatches(s: string, a: set<char>, b: set<char>)
    requires IsWord(s, a, b)
    ensures Matches(Then(One(a), Times(One(b), 1, 14)), s)
  {
    hide MatchesTimes;
    TimesOne(b, |s| - 1, s[1..]);
    assert s[..1] == [s[0]];
    assert Matches(One(a), s[..1]) && Matches(Times(One(b), 1, 14), s[1..]);
  }

  lemma {:induction false} MatchIsWord(s: string, a: set<char>, b: set<char>)
    requires Matches(Then(One(a), Times(One(b), 1, 14)), s)
    ensures IsWord(s, a, b)
  {
    hide MatchesTimes;
    var i :| 0 <= i <= |s| && Matches(One(a), s[..i]) && Matches(Times(One(b), 1, 14), s[i..]);
    TimesIs(One(b), 1, 14, s[i..]);
    var k: nat :| 1 <= k <= 14 && MatchesTimes(One(b), k, s[i..]);
    TimesOne(b, k, s[i..]);
    assert i == 1 && s[0] == s[..1][0];
    assert forall j :: 1 <= j < |s| ==> s[j] == s[1..][j - 1];
  }

  lemma {:induction false} ClassesAre(c: char)
    ensures Session.IsAlpha(c) <==> c in ALPHA
    ensures Session.IsNicknameChar(c) <==> c in ALNUM + {'!', '@', '#', '$', '%', '&'}
  {
  }

  /** What the pattern matches is what the predicate says. */
  lemma {:induction false} NicknamesMatch(n: string)
    ensures Session.ValidNickname(n) <==> Matches(PATTERN, n)
  {
    hide Matches, Session.IsAlpha, Session.IsNicknameChar;
    var b := ALNUM + {'!', '@', '#', '$', '%', '&'};
    forall c: char
      ensures (Session.IsAlpha(c) <==> c in ALPHA) && (Session.IsNicknameChar(c) <==> c in b)
    {
      ClassesAre(c);
    }
    if IsWord(n, ALPHA, b) {
      WordMatches(n, ALPHA, b);
    }
    if Matches(PATTERN, n) {
      MatchIsWord(n, ALPHA, b);
    }
  }
}
