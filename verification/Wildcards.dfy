/** Token comparison with a wildcard that stands for the rest of a substring. */
module Wildcards {

  const SEPARATOR := '|'

  ghost predicate HasStar(s: string) {
    '*' in s
  }

  /** What is left after the current substring. */
  ghost function AfterSubstring(v: string): (r: string)
    ensures |r| <= |v|
  {
    if v == [] || v[0] == SEPARATOR then v else AfterSubstring(v[1..])
  }

  /** A star in the expression stands for everything up to the next separator; it does not match at the end. */
  ghost predicate WildcardMatch(e: string, v: string)
    decreases |e| + |v|
  {
    if v == [] then e == []
    else if e == [] then false
    else if e[0] == v[0] then WildcardMatch(e[1..], v[1..])
    else e[0] == '*' && WildcardMatch(e[1..], AfterSubstring(v))
  }

  /** Without a star, matching is equality. */
  lemma {:induction false} MatchWithoutStar(e: string, v: string)
    requires !HasStar(e)
    ensures WildcardMatch(e, v) <==> e == v
    decreases |e|
  {
    if v != [] && e != [] {
      assert e[0] in e;
      if e[0] == v[0] {
        assert !HasStar(e[1..]) by {
          assert forall c :: c in e[1..] ==> c in e;
        }
        MatchWithoutStar(e[1..], v[1..]);
        assert e == [e[0]] + e[1..] && v == [v[0]] + v[1..];
      }
    }
  }

  lemma {:induction false} AfterSubstringIs(u: string, v: string)
    requires '|' !in u && (v == [] || v[0] == '|')
    ensures AfterSubstring(u + v) == v
  {
    if u == [] {
      assert u + v == v;
    } else {
      assert u[0] in u && forall c :: c in u[1..] ==> c in u;
      assert (u + v)[1..] == u[1..] + v;
      AfterSubstringIs(u[1..], v);
    }
  }

  /** A star stands for exactly what is left of the current substring, which may be nothing. */
  lemma StarIsRestOfSubstring(e: string, u: string, v: string)
    requires '|' !in u && (v == [] || v[0] == '|') && u + v != [] && '*' !in u + v
    ensures WildcardMatch("*" + e, u + v) <==> WildcardMatch(e, v)
  {
    AfterSubstringIs(u, v);
    assert (u + v)[0] in u + v;
    assert ("*" + e)[1..] == e;
  }

  /** Any other character stands for itself, and nothing matches the end but the end. */
  lemma OthersAreThemselves(c: char, e: string, d: char, v: string)
    requires c != '*'
    ensures WildcardMatch([c] + e, [d] + v) <==> c == d && WildcardMatch(e, v)
    ensures !WildcardMatch([c] + e, "") && !WildcardMatch("*" + e, "") && !WildcardMatch("", [d] + v)
    ensures WildcardMatch("", "")
  {
    assert ([c] + e)[1..] == e && ([d] + v)[1..] == v;
  }

  ghost function Substrings(s: string): nat {
    if s == [] then 1 else (if s[0] == SEPARATOR then 1 else 0) + Substrings(s[1..])
  }

  lemma {:induction false} AfterSubstringCount(v: string)
    ensures Substrings(AfterSubstring(v)) == Substrings(v)
  {
    if v != [] && v[0] != SEPARATOR {
      AfterSubstringCount(v[1..]);
    }
  }

  /** A match never changes the number of substrings. */
  lemma {:induction false} MatchKeepsSubstrings(e: string, v: string)
    requires WildcardMatch(e, v)
    ensures Substrings(e) == Substrings(v)
    decreases |e| + |v|
  {
    if v != [] {
      if e[0] == v[0] {
        MatchKeepsSubstrings(e[1..], v[1..]);
      } else {
        MatchKeepsSubstrings(e[1..], AfterSubstring(v));
        AfterSubstringCount(v);
      }
    }
  }

  /** Compares an expression with a non-empty token that contains no star itself. */
  method StrEqualWildcard(e: string, v: string) returns (r: bool)
    requires v != [] && !HasStar(v)
    ensures r <==> WildcardMatch(e, v)
  {
    var i, j := 0, 0;
    assert e[0..] == e && v[0..] == v;
    while j < |v|
      invariant 0 <= i <= |e| && 0 <= j <= |v|
      invariant WildcardMatch(e[i..], v[j..]) <==> WildcardMatch(e, v)
      decreases |v| - j, |e| - i
    {
      if i < |e| && e[i] == v[j] {
        assert e[i..][1..] == e[i + 1..] && v[j..][1..] == v[j + 1..];
        i, j := i + 1, j + 1;
      } else {
        if i < |e| && e[i] == '*' {
          assert e[i..][1..] == e[i + 1..];
          i := i + 1;
          ghost var start := j;
          while j < |v| && v[j] != SEPARATOR
            invariant start <= j <= |v|
            invariant AfterSubstring(v[j..]) == AfterSubstring(v[start..])
          {
            assert v[j..][1..] == v[j + 1..];
            j := j + 1;
          }
        } else {
          return false;
        }
      }
    }
    r := i >= |e|;
  }
}
