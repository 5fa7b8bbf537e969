/** The four blank characters make no difference to each other. */
module Blanks {
  import opened Results
  import opened Printing
  import opened Parsing

  ghost predicate BlankChar(c: char) {
    c == ' ' || c == '\t' || c == '\n' || c == '\r'
  }

  /** The texts differ at most in which blank stands at a place. */
  ghost predicate Alike(s: string, t: string) {
    |s| == |t| && forall i :: 0 <= i < |s| ==> s[i] == t[i] || (BlankChar(s[i]) && BlankChar(t[i]))
  }

  lemma SameSkip(s: string, t: string, pos: nat)
    requires Alike(s, t) && pos <= |s|
    ensures Skip(s, pos) == Skip(t, pos) && Cur(s, Skip(s, pos)) == Cur(t, Skip(s, pos))
    decreases |s| - pos
  {
    if IsBlank(Cur(s, pos)) {
      SameSkip(s, t, pos + 1);
    }
  }

  lemma FirstOf(s: string, pos: nat, q: nat)
    requires pos < q <= |s|
    ensures s[pos..q] == [s[pos]] + s[pos + 1..q]
  {
  }

  lemma {:induction false} SameNameEnd(s: string, t: string, pos: nat)
    requires Alike(s, t) && pos <= |s|
    ensures NameEnd(s, pos) == NameEnd(t, pos) && s[pos..NameEnd(s, pos)] == t[pos..NameEnd(s, pos)]
    decreases |s| - pos
  {
    if !IsDelimiter(Cur(s, pos)) {
      SameNameEnd(s, t, pos + 1);
      var q := NameEnd(s, pos);
      FirstOf(s, pos, q);
      FirstOf(t, pos, q);
    }
  }

  lemma {:induction false} SameDigits(s: string, t: string, pos: nat, value: nat)
    requires Alike(s, t) && pos <= |s|
    ensures ReadDigits(s, pos, value) == ReadDigits(t, pos, value)
    decreases |s| - pos
  {
    var c := Cur(s, pos);
    if IsDigit(c) {
      SameDigits(s, t, pos + 1, value * 10 + (c as int - '0' as int));
    }
  }

  lemma SameNumber(s: string, t: string, pos: nat)
    requires Alike(s, t) && pos <= |s|
    ensures ReadNumber(s, pos) == ReadNumber(t, pos)
  {
    SameSkip(s, t, pos);
    SameDigits(s, t, Skip(s, pos), 0);
  }

  lemma SameMax(s: string, t: string, pos: nat, min: nat)
    requires Alike(s, t) && pos <= |s|
    ensures ReadMax(s, Skip(s, pos), min) == ReadMax(t, Skip(t, pos), min)
  {
    SameSkip(s, t, pos);
    if Cur(s, Skip(s, pos)) == ',' {
      SameNumber(s, t, Skip(s, pos) + 1);
    }
  }

  lemma SameBrace(s: string, t: string, pos: nat, e: Option<Expr>, min: nat, max: int)
    requires Alike(s, t) && pos <= |s| && max >= -1
    ensures ReadBrace(s, Skip(s, pos), e, min, max) == ReadBrace(t, Skip(t, pos), e, min, max)
  {
    SameSkip(s, t, pos);
    if Cur(s, Skip(s, pos)) == '}' {
      SameSkip(s, t, Skip(s, pos) + 1);
    }
  }

  lemma SameQuantifier(s: string, t: string, pos: nat, e: Option<Expr>)
    requires Alike(s, t) && pos <= |s|
    ensures ReadQuantifier(s, pos, e) == ReadQuantifier(t, pos, e)
  {
    if pos < |s| {
      SameSkip(s, t, pos + 1);
      SameNumber(s, t, pos + 1);
    }
    if Cur(s, pos) == '{' && ReadNumber(s, pos + 1).0 >= 0 {
      var (min, p) := ReadNumber(s, pos + 1);
      SameMax(s, t, p, min);
      var (max, z) := ReadMax(s, Skip(s, p), min);
      SameBrace(s, t, z, e, min, max);
    }
  }

  lemma {:induction false} SamePrimary(s: string, t: string, pos: nat)
    requires Alike(s, t) && pos <= |s|
    ensures ReadPrimary(s, pos) == ReadPrimary(t, pos)
    decreases |s| - pos, 0
  {
    var p := Skip(s, pos);
    SameSkip(s, t, pos);
    if Cur(s, p) == '(' {
      SameExpr(s, t, p + 1);
      var inner := ReadExpr(s, p + 1);
      if !inner.Outside? {
        SameSkip(s, t, inner.next);
        var q := Skip(s, inner.next);
        if Cur(s, q) == ')' {
          SameSkip(s, t, q + 1);
        }
      }
    } else {
      SameNameEnd(s, t, p);
      SameSkip(s, t, NameEnd(s, p));
    }
  }

  lemma {:induction false} SameOr(s: string, t: string, pos: nat)
    requires Alike(s, t) && pos <= |s|
    ensures ReadOr(s, pos) == ReadOr(t, pos)
    decreases |s| - pos, 1
  {
    SamePrimary(s, t, pos);
    var primary := ReadPrimary(s, pos);
    if primary.Found? {
      SameQuantifier(s, t, primary.next, primary.expr);
    }
  }

  lemma {:induction false} SameMoreOr(s: string, t: string, pos: nat, left: Option<Expr>)
    requires Alike(s, t) && pos <= |s|
    ensures MoreOr(s, pos, left) == MoreOr(t, pos, left)
    decreases |s| - pos, 2
  {
    if Cur(s, pos) == '|' {
      SameOr(s, t, pos + 1);
      var right := ReadOr(s, pos + 1);
      if right.Read? && left.Some? {
        SameMoreOr(s, t, right.next, Some(OrExpr(left.value, right.expr)));
      }
    }
  }

  lemma {:induction false} SameSeq(s: string, t: string, pos: nat)
    requires Alike(s, t) && pos <= |s|
    ensures ReadSeq(s, pos) == ReadSeq(t, pos)
    decreases |s| - pos, 3
  {
    SameOr(s, t, pos);
    var first := ReadOr(s, pos);
    if !first.Outside? {
      SameSkip(s, t, first.next);
      SameMoreOr(s, t, Skip(s, first.next), Expression(first));
    }
  }

  lemma {:induction false} SameMoreSeq(s: string, t: string, pos: nat, left: Option<Expr>)
    requires Alike(s, t) && pos <= |s|
    ensures MoreSeq(s, pos, left) == MoreSeq(t, pos, left)
    decreases |s| - pos, 4
  {
    if Cur(s, pos) == ',' {
      SameSeq(s, t, pos + 1);
      var right := ReadSeq(s, pos + 1);
      if right.Read? && left.Some? {
        SameMoreSeq(s, t, right.next, Some(SeqExpr(left.value, right.expr)));
      }
    }
  }

  lemma {:induction false} SameExpr(s: string, t: string, pos: nat)
    requires Alike(s, t) && pos <= |s|
    ensures ReadExpr(s, pos) == ReadExpr(t, pos)
    decreases |s| - pos, 5
  {
    SameSeq(s, t, pos);
    var first := ReadSeq(s, pos);
    if !first.Outside? {
      SameSkip(s, t, first.next);
      SameMoreSeq(s, t, Skip(s, first.next), Expression(first));
    }
  }

  /** Which blank stands where makes no difference. */
  lemma BlanksAreAlike(s: string, t: string)
    requires |s| == |t|
    requires forall i :: 0 <= i < |s| ==>
      s[i] == t[i] || (s[i] in {' ', '\t', '\n', '\r'} && t[i] in {' ', '\t', '\n', '\r'})
    ensures ReadText(s) == ReadText(t)
  {
    SameExpr(s, t, 0);
    var r := ReadExpr(s, 0);
    if !r.Outside? {
      SameSkip(s, t, r.next);
    }
  }
}
