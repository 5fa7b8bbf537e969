/** Languages over tokens: concatenation, powers and bounded repetition. */
module Languages {
  type Token = string
  type Word = seq<Token>
  type Language = iset<Word>

  ghost const NOTHING: Language := iset{}
  ghost const EMPTY_WORD: Language := iset{[]}

  ghost predicate Splits(a: Language, b: Language, w: Word, k: int) {
    0 <= k <= |w| && w[..k] in a && w[k..] in b
  }

  ghost predicate IsConcatenation(a: Language, b: Language, w: Word) {
    exists k :: Splits(a, b, w, k)
  }

  ghost function Cat(a: Language, b: Language): Language {
    iset w | IsConcatenation(a, b, w)
  }

  ghost function Pow(a: Language, n: nat): Language {
    if n == 0 then EMPTY_WORD else Cat(a, Pow(a, n - 1))
  }

  /** Between min and max copies; a negative max means no upper bound. */
  ghost predicate Copies(min: int, max: int, n: nat) {
    min <= n && (max < 0 || n <= max)
  }

  ghost predicate IsRepetition(a: Language, min: int, max: int, w: Word) {
    exists n: nat :: Copies(min, max, n) && w in Pow(a, n)
  }

  ghost function Rep(a: Language, min: int, max: int): Language {
    iset w | IsRepetition(a, min, max, w)
  }

  ghost predicate WellFormedCount(min: int, max: int) {
    0 <= min && (max == -1 || min <= max)
  }

  lemma InCat(a: Language, b: Language, u: Word, v: Word)
    requires u in a && v in b
    ensures u + v in Cat(a, b)
  {
    assert (u + v)[..|u|] == u && (u + v)[|u|..] == v;
    assert Splits(a, b, u + v, |u|);
  }

  lemma CatEmptyLeft(b: Language)
    ensures Cat(EMPTY_WORD, b) == b
  {
    forall w
      ensures w in Cat(EMPTY_WORD, b) <==> w in b
    {
      if w in b {
        assert [] + w == w;
        InCat(EMPTY_WORD, b, [], w);
      }
      if k :| Splits(EMPTY_WORD, b, w, k) {
        assert w[k..] == w;
      }
    }
  }

  lemma CatEmptyRight(a: Language)
    ensures Cat(a, EMPTY_WORD) == a
  {
    forall w
      ensures w in Cat(a, EMPTY_WORD) <==> w in a
    {
      if w in a {
        assert w + [] == w;
        InCat(a, EMPTY_WORD, w, []);
      }
      if k :| Splits(a, EMPTY_WORD, w, k) {
        assert w[..k] == w;
      }
    }
  }

  lemma CatNothing(a: Language)
    ensures Cat(a, NOTHING) == NOTHING && Cat(NOTHING, a) == NOTHING
  {
  }

  lemma RepOnce(a: Language)
    ensures Rep(a, 1, 1) == a && Rep(a, 0, 0) == EMPTY_WORD
  {
    CatEmptyRight(a);
    assert Pow(a, 1) == Cat(a, Pow(a, 0));
    forall w
      ensures w in Rep(a, 1, 1) <==> w in a
    {
      assert w in a ==> Copies(1, 1, 1) && w in Pow(a, 1);
    }
    forall w
      ensures w in Rep(a, 0, 0) <==> w in EMPTY_WORD
    {
      assert w in EMPTY_WORD ==> Copies(0, 0, 0) && w in Pow(a, 0);
    }
  }

  lemma {:induction false} EmptyInPow(a: Language, n: nat)
    ensures [] in Pow(a, n) <==> n == 0 || [] in a
  {
    if n > 0 {
      EmptyInPow(a, n - 1);
      EmptyInCat(a, Pow(a, n - 1));
    }
  }

  /** The empty word is a repetition exactly when no copy is needed or the body accepts it. */
  lemma EmptyInRep(a: Language, min: int, max: int)
    requires WellFormedCount(min, max)
    ensures [] in Rep(a, min, max) <==> min == 0 || [] in a
  {
    EmptyInPow(a, min);
    assert Copies(min, max, min);
    if n: nat :| Copies(min, max, n) && [] in Pow(a, n) {
      EmptyInPow(a, n);
    }
  }

  lemma EmptyInCat(a: Language, b: Language)
    ensures [] in Cat(a, b) <==> [] in a && [] in b
  {
    var e: Word := [];
    if e in a && e in b {
      InCat(a, b, e, e);
      assert e + e == e;
    }
    if k :| Splits(a, b, e, k) {
      assert e[..k] == e && e[k..] == e;
    }
  }

  /** The words w such that the token followed by w is in a. */
  ghost function Derivative(a: Language, t: Token): Language {
    iset w: Word | [t] + w in a
  }

  /** Brzozowski's rule for concatenation. */
  lemma DerivativeOfCat(a: Language, b: Language, t: Token)
    ensures Derivative(Cat(a, b), t) == Cat(Derivative(a, t), b) + (if [] in a then Derivative(b, t) else NOTHING)
  {
    forall w
      ensures w in Derivative(Cat(a, b), t) <==> w in Cat(Derivative(a, t), b) || ([] in a && w in Derivative(b, t))
    {
      var tw := [t] + w;
      if k :| Splits(a, b, tw, k) {
        if k == 0 {
          assert tw[..0] == [] && tw[0..] == tw;
        } else {
          assert tw[..k] == [t] + w[..k - 1] && tw[k..] == w[k - 1..];
          assert Splits(Derivative(a, t), b, w, k - 1);
        }
      }
      if k :| Splits(Derivative(a, t), b, w, k) {
        assert tw == ([t] + w[..k]) + w[k..];
        InCat(a, b, [t] + w[..k], w[k..]);
      }
      if [] in a && w in Derivative(b, t) {
        assert [] + tw == tw;
        InCat(a, b, [], tw);
      }
    }
  }

  lemma {:induction false} PowGrows(a: Language, n: nat, m: nat, w: Word)
    requires [] in a && w in Pow(a, n) && n <= m
    ensures w in Pow(a, m)
    decreases m
  {
    if n < m {
      PowGrows(a, n, m - 1, w);
      assert [] + w == w;
      InCat(a, Pow(a, m - 1), [], w);
    }
  }

  /** A word of a power that starts with t: its first non-empty factor can be moved to the front. */
  lemma {:induction false} DerivativeOfPow(a: Language, n: nat, t: Token, w: Word)
    requires n > 0 && [t] + w in Pow(a, n)
    ensures w in Cat(Derivative(a, t), Pow(a, n - 1))
    decreases n
  {
    var tw := [t] + w;
    var k :| Splits(a, Pow(a, n - 1), tw, k);
    if k > 0 {
      assert tw[..k] == [t] + w[..k - 1] && tw[k..] == w[k - 1..];
      assert Splits(Derivative(a, t), Pow(a, n - 1), w, k - 1);
    } else {
      assert tw[..0] == [] && tw[0..] == tw;
      assert n > 1;
      DerivativeOfPow(a, n - 1, t, w);
      var j :| Splits(Derivative(a, t), Pow(a, n - 2), w, j);
      PowGrows(a, n - 2, n - 1, w[j..]);
      assert Splits(Derivative(a, t), Pow(a, n - 1), w, j);
    }
  }

  function Less(min: int): int {
    if min > 0 then min - 1 else 0
  }

  function LessMax(max: int): int {
    if max < 0 then -1 else max - 1
  }

  /** The rule for counts, right even when the body accepts the empty word. */
  lemma DerivativeOfRep(a: Language, min: int, max: int, t: Token)
    requires WellFormedCount(min, max) && max != 0
    ensures Derivative(Rep(a, min, max), t) == Cat(Derivative(a, t), Rep(a, Less(min), LessMax(max)))
  {
    var d, rest := Derivative(a, t), Rep(a, Less(min), LessMax(max));
    forall w
      ensures w in Derivative(Rep(a, min, max), t) <==> w in Cat(d, rest)
    {
      if n: nat :| Copies(min, max, n) && [t] + w in Pow(a, n) {
        assert n > 0;
        DerivativeOfPow(a, n, t, w);
        var k :| Splits(d, Pow(a, n - 1), w, k);
        assert Copies(Less(min), LessMax(max), n - 1);
        assert Splits(d, rest, w, k);
      }
      if k :| Splits(d, rest, w, k) {
        var n: nat :| Copies(Less(min), LessMax(max), n) && w[k..] in Pow(a, n);
        InCat(a, Pow(a, n), [t] + w[..k], w[k..]);
        assert ([t] + w[..k]) + w[k..] == [t] + w;
        assert Copies(min, max, n + 1) && [t] + w in Pow(a, n + 1);
      }
    }
  }
}
