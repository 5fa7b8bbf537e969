/** One step of derivation of an expression by a token, and how it compares with the true derivative. */
module Derivatives {
  import opened Results
  import opened Languages
  import opened Expressions
  import opened ExpContexts

  /** The derivation finds something: its result is not the forbidden node. */
  ghost predicate Finds(s: Store, e: nat, t: Token)
    requires Acyclic(s) && e < |s|
    decreases e
  {
    assert PartsBelow(s[e].node, e);
    match s[e].node
    case Forbid => false
    case Empty => false
    case Atom(a) => a == t
    case Or(l, r) => Finds(s, l, t) || Finds(s, r, t)
    case Seq(l, r) => Finds(s, l, t) || (s[l].nillable && Finds(s, r, t))
    case Count(b, _, max) => max != 0 && Finds(s, b, t)
  }

  /** What the derivation denotes: in a sequence it commits to the left part as soon as that finds something. */
  ghost function Greedy(s: Store, e: nat, t: Token): Language
    requires Acyclic(s) && e < |s|
    decreases e
  {
    assert PartsBelow(s[e].node, e);
    match s[e].node
    case Forbid => NOTHING
    case Empty => NOTHING
    case Atom(a) => if a == t then EMPTY_WORD else NOTHING
    case Or(l, r) => Greedy(s, l, t) + Greedy(s, r, t)
    case Seq(l, r) =>
      if Finds(s, l, t) then Cat(Greedy(s, l, t), L(s, r)) else if s[l].nillable then Greedy(s, r, t) else NOTHING
    case Count(b, min, max) =>
      if max == 0 then NOTHING else Cat(Greedy(s, b, t), Rep(L(s, b), Less(min), LessMax(max)))
  }

  lemma {:induction false} GreedyStays(s: Store, s': Store, e: nat, t: Token)
    requires Acyclic(s) && Acyclic(s') && s <= s' && e < |s|
    ensures Finds(s, e, t) == Finds(s', e, t) && Greedy(s, e, t) == Greedy(s', e, t)
    decreases e
  {
    assert PartsBelow(s[e].node, e) && s'[e] == s[e];
    match s[e].node
    case Or(l, r) => GreedyStays(s, s', l, t); GreedyStays(s, s', r, t);
    case Seq(l, r) =>
      GreedyStays(s, s', l, t);
      GreedyStays(s, s', r, t);
      LanguageStays(s, s', r);
      assert s'[l] == s[l];
    case Count(b, _, _) =>
      GreedyStays(s, s', b, t);
      LanguageStays(s, s', b);
    case _ =>
  }

  lemma {:induction false} NothingFound(s: Store, e: nat, t: Token)
    requires Acyclic(s) && e < |s| && !Finds(s, e, t)
    ensures Greedy(s, e, t) == NOTHING
    decreases e
  {
    assert PartsBelow(s[e].node, e);
    match s[e].node
    case Or(l, r) => NothingFound(s, l, t); NothingFound(s, r, t);
    case Seq(l, r) =>
      if s[l].nillable {
        NothingFound(s, r, t);
      }
    case Count(b, min, max) =>
      if max != 0 {
        NothingFound(s, b, t);
        CatNothing(Rep(L(s, b), Less(min), LessMax(max)));
      }
    case _ =>
  }

  lemma CatMonotone(a: Language, a': Language, b: Language)
    requires a <= a'
    ensures Cat(a, b) <= Cat(a', b)
  {
    forall w | w in Cat(a, b)
      ensures w in Cat(a', b)
    {
      var k :| Splits(a, b, w, k);
      assert Splits(a', b, w, k);
    }
  }

  /** Soundness: whatever the derivation accepts, the expression accepts after the token. */
  lemma {:induction false} DerivationIsSound(s: Store, e: nat, t: Token)
    requires WellFormed(s) && e < |s|
    ensures Acyclic(s) && Greedy(s, e, t) <= Derivative(L(s, e), t)
    decreases e
  {
    WellFormedIsAcyclic(s);
    assert PartsBelow(s[e].node, e);
    match s[e].node
    case Or(l, r) => DerivationIsSound(s, l, t); DerivationIsSound(s, r, t);
    case Seq(l, r) =>
      DerivationIsSound(s, l, t);
      DerivationIsSound(s, r, t);
      NillableIsExact(s, l);
      CatMonotone(Greedy(s, l, t), Derivative(L(s, l), t), L(s, r));
      DerivativeOfCat(L(s, l), L(s, r), t);
    case Count(b, min, max) =>
      if max != 0 {
        OnlyCanonical(s, e);
        DerivationIsSound(s, b, t);
        CatMonotone(Greedy(s, b, t), Derivative(L(s, b), t), Rep(L(s, b), Less(min), LessMax(max)));
        DerivativeOfRep(L(s, b), min, max, t);
      }
    case Atom(a) =>
      assert [t] + [] == [t];
    case _ =>
  }

  lemma OnlyCanonical(s: Store, e: nat)
    requires WellFormed(s) && e < |s|
    ensures s[e].node.Count? ==> WellFormedCount(s[e].node.min, s[e].node.max)
  {
    if e >= 2 {
      assert Canonical(s[..e], s[e].node, s[e].nillable);
    }
  }

  /** A derivation that finds nothing is right: no accepted word starts with the token. */
  lemma {:induction false} NothingMissed(s: Store, e: nat, t: Token)
    requires WellFormed(s) && e < |s|
    ensures Acyclic(s) && (!Finds(s, e, t) ==> Derivative(L(s, e), t) == NOTHING)
    decreases e
  {
    WellFormedIsAcyclic(s);
    if !Finds(s, e, t) {
      assert PartsBelow(s[e].node, e);
      match s[e].node
      case Or(l, r) =>
        NothingMissed(s, l, t);
        NothingMissed(s, r, t);
        assert Derivative(L(s, e), t) == Derivative(L(s, l), t) + Derivative(L(s, r), t);
      case Seq(l, r) =>
        NothingMissed(s, l, t);
        NothingMissed(s, r, t);
        NillableIsExact(s, l);
        DerivativeOfCat(L(s, l), L(s, r), t);
        CatNothing(L(s, r));
      case Count(b, min, max) =>
        OnlyCanonical(s, e);
        NothingMissed(s, b, t);
        if max == 0 {
          RepOnce(L(s, b));
        } else {
          DerivativeOfRep(L(s, b), min, max, t);
          CatNothing(Rep(L(s, b), Less(min), LessMax(max)));
        }
      case Atom(a) =>
        forall w: Word
          ensures [t] + w != [a]
        {
          assert ([t] + w)[0] == t;
        }
      case _ =>
    }
  }

  /** At every sequence visited whose left part is nillable, at most one of the two parts finds the token. */
  ghost predicate Unambiguous(s: Store, e: nat, t: Token)
    requires Acyclic(s) && e < |s|
    decreases e
  {
    assert PartsBelow(s[e].node, e);
    match s[e].node
    case Or(l, r) => Unambiguous(s, l, t) && Unambiguous(s, r, t)
    case Seq(l, r) =>
      && Unambiguous(s, l, t)
      && (s[l].nillable ==> !(Finds(s, l, t) && Finds(s, r, t)))
      && (!Finds(s, l, t) && s[l].nillable ==> Unambiguous(s, r, t))
    case Count(b, _, _) => Unambiguous(s, b, t)
    case _ => true
  }

  /** Completeness: for unambiguous expressions the derivation is the true derivative. */
  lemma {:induction false} DerivationIsExact(s: Store, e: nat, t: Token)
    requires WellFormed(s) && e < |s| && Acyclic(s) && Unambiguous(s, e, t)
    ensures Greedy(s, e, t) == Derivative(L(s, e), t)
    decreases e
  {
    assert PartsBelow(s[e].node, e);
    match s[e].node
    case Or(l, r) =>
      DerivationIsExact(s, l, t);
      DerivationIsExact(s, r, t);
      assert Derivative(L(s, e), t) == Derivative(L(s, l), t) + Derivative(L(s, r), t);
    case Seq(l, r) =>
      DerivationIsExact(s, l, t);
      NothingMissed(s, l, t);
      NothingMissed(s, r, t);
      NillableIsExact(s, l);
      DerivativeOfCat(L(s, l), L(s, r), t);
      CatNothing(L(s, r));
      if !Finds(s, l, t) && s[l].nillable {
        DerivationIsExact(s, r, t);
      }
    case Count(b, min, max) =>
      OnlyCanonical(s, e);
      DerivationIsExact(s, b, t);
      if max == 0 {
        RepOnce(L(s, b));
      } else {
        DerivativeOfRep(L(s, b), min, max, t);
      }
    case Atom(a) =>
      forall w: Word
        ensures [t] + w == [a] <==> a == t && w == []
      {
        assert ([t] + w)[0] == t && |[t] + w| == 1 + |w|;
      }
    case _ =>
  }

  /**
   * One sequence node whose parts are derived exactly: the step is exact if and only if it does not drop
   * words of the right part, that is, if the left part is not nillable, finds nothing, or covers them.
   */
  lemma SequenceStepExact(s: Store, e: nat, t: Token)
    requires WellFormed(s) && e < |s| && Acyclic(s) && s[e].node.Seq?
    requires PartsBelow(s[e].node, e)
    requires var Seq(l, r) := s[e].node;
             Greedy(s, l, t) == Derivative(L(s, l), t) && Greedy(s, r, t) == Derivative(L(s, r), t)
    ensures var Seq(l, r) := s[e].node;
            Greedy(s, e, t) == Derivative(L(s, e), t) <==>
            (s[l].nillable && Finds(s, l, t) ==> Greedy(s, r, t) <= Cat(Greedy(s, l, t), L(s, r)))
  {
    var Seq(l, r) := s[e].node;
    NillableIsExact(s, l);
    NothingMissed(s, l, t);
    DerivativeOfCat(L(s, l), L(s, r), t);
    CatNothing(L(s, r));
  }

  /** The store of a? , (a , b), which is node 6. */
  ghost const EXAMPLE: Store :=
    [Entry(Forbid, 0, false), Entry(Empty, 0, true), Entry(Atom("a"), 1, false), Entry(Atom("b"), 2, false),
     Entry(Count(2, 0, 1), 2, true), Entry(Seq(2, 3), 9, false), Entry(Seq(4, 5), 33, false)]

  lemma ExampleWellFormed()
    ensures WellFormed(EXAMPLE) && Acyclic(EXAMPLE)
  {
    forall i | 2 <= i < |EXAMPLE|
      ensures Canonical(EXAMPLE[..i], EXAMPLE[i].node, EXAMPLE[i].nillable)
    {
    }
    WellFormedIsAcyclic(EXAMPLE);
  }

  /** In two-token words of a , b the first token is always a and the last is b. */
  lemma ExamplePair()
    requires Acyclic(EXAMPLE)
    ensures L(EXAMPLE, 5) == iset{["a", "b"]}
  {
    var a, b := L(EXAMPLE, 2), L(EXAMPLE, 3);
    assert ["a"] + ["b"] == ["a", "b"];
    InCat(a, b, ["a"], ["b"]);
    forall w | w in Cat(a, b)
      ensures w == ["a", "b"]
    {
      var k :| Splits(a, b, w, k);
      assert w == w[..k] + w[k..];
    }
  }

  lemma ExampleAccepts()
    requires WellFormed(EXAMPLE) && Acyclic(EXAMPLE)
    ensures ["b"] in Derivative(L(EXAMPLE, 6), "a")
  {
    ExamplePair();
    NillableIsExact(EXAMPLE, 4);
    InCat(L(EXAMPLE, 4), L(EXAMPLE, 5), [], ["a", "b"]);
    assert [] + ["a", "b"] == ["a", "b"] == ["a"] + ["b"];
  }

  lemma ExampleMisses()
    requires WellFormed(EXAMPLE) && Acyclic(EXAMPLE)
    ensures ["b"] !in Greedy(EXAMPLE, 6, "a")
  {
    ExamplePair();
    assert Finds(EXAMPLE, 2, "a");
    assert Finds(EXAMPLE, 4, "a");
    forall k
      ensures !Splits(Greedy(EXAMPLE, 4, "a"), L(EXAMPLE, 5), ["b"], k)
    {
      assert 0 <= k <= 1 ==> |["b"][k..]| < |["a", "b"]|;
    }
  }

  /** After a the word b is left of a? , (a , b), but the derivation has committed to the optional a. */
  lemma CommittedTooEarly()
    ensures WellFormed(EXAMPLE) && Acyclic(EXAMPLE)
    ensures ["b"] in Derivative(L(EXAMPLE, 6), "a") && ["b"] !in Greedy(EXAMPLE, 6, "a")
  {
    ExampleWellFormed();
    ExampleAccepts();
    ExampleMisses();
  }

  /** At every alternative on the way at most one part finds the token, so no two results have to be joined. */
  ghost predicate OneWay(s: Store, e: nat, t: Token)
    requires Acyclic(s) && e < |s|
    decreases e
  {
    assert PartsBelow(s[e].node, e);
    match s[e].node
    case Or(l, r) => OneWay(s, l, t) && OneWay(s, r, t) && !(Finds(s, l, t) && Finds(s, r, t))
    case Seq(l, r) => OneWay(s, l, t) && (!Finds(s, l, t) && s[l].nillable ==> OneWay(s, r, t))
    case Count(b, _, max) => max == 0 || OneWay(s, b, t)
    case _ => true
  }

  lemma {:induction false} OneWayStays(s: Store, s': Store, e: nat, t: Token)
    requires Acyclic(s) && Acyclic(s') && s <= s' && e < |s|
    ensures OneWay(s, e, t) == OneWay(s', e, t)
    decreases e
  {
    assert PartsBelow(s[e].node, e) && s'[e] == s[e];
    GreedyStays(s, s', e, t);
    match s[e].node
    case Or(l, r) =>
      GreedyStays(s, s', l, t);
      GreedyStays(s, s', r, t);
      OneWayStays(s, s', l, t);
      OneWayStays(s, s', r, t);
    case Seq(l, r) =>
      GreedyStays(s, s', l, t);
      OneWayStays(s, s', l, t);
      OneWayStays(s, s', r, t);
      assert s'[l] == s[l];
    case Count(b, _, _) => OneWayStays(s, s', b, t);
    case _ =>
  }

  /** Without an alternative there is only one way. */
  ghost predicate NoAlternative(s: Store, e: nat)
    requires Acyclic(s) && e < |s|
    decreases e
  {
    assert PartsBelow(s[e].node, e);
    match s[e].node
    case Or(_, _) => false
    case Seq(l, r) => NoAlternative(s, l) && NoAlternative(s, r)
    case Count(b, _, _) => NoAlternative(s, b)
    case _ => true
  }

  lemma {:induction false} NoAlternativeOneWay(s: Store, e: nat, t: Token)
    requires Acyclic(s) && e < |s| && NoAlternative(s, e)
    ensures OneWay(s, e, t)
    decreases e
  {
    assert PartsBelow(s[e].node, e);
    match s[e].node
    case Seq(l, r) =>
      NoAlternativeOneWay(s, l, t);
      NoAlternativeOneWay(s, r, t);
    case Count(b, _, _) => NoAlternativeOneWay(s, b, t);
    case _ =>
  }

  /** One step of derivation. None means that the reordering of an alternative ran out of fuel. */
  method StringDerive(ctxt: ExpContext, e: nat, t: Token, fuel: nat) returns (r: Option<nat>)
    requires ctxt.Valid() && e < |ctxt.store|
    modifies ctxt
    ensures ctxt.Valid() && old(ctxt.store) <= ctxt.store
    ensures r.Some? ==>
      && r.value < |ctxt.store|
      && L(ctxt.store, r.value) == Greedy(old(ctxt.store), e, t)
      && (r.value == FORBIDDEN <==> !Finds(old(ctxt.store), e, t))
    ensures OneWay(old(ctxt.store), e, t) ==> r.Some?
    decreases e
  {
    ghost var s := ctxt.store;
    assert PartsBelow(s[e].node, e);
    match ctxt.store[e].node
    case Empty => r := Some(FORBIDDEN);
    case Forbid => r := Some(FORBIDDEN);
    case Atom(a) => r := Some(if a == t then EMPTY else FORBIDDEN);
    case Or(left, right) =>
      var tmp := StringDerive(ctxt, left, t, fuel);
      if tmp == None {
        return None;
      }
      ghost var s1 := ctxt.store;
      GreedyStays(s, s1, right, t);
      OneWayStays(s, s1, right, t);
      var ret := StringDerive(ctxt, right, t, fuel);
      if ret == None {
        return None;
      }
      LanguageStays(s1, ctxt.store, tmp.value);
      r := ctxt.GetOr(tmp.value, ret.value, fuel);
    case Seq(left, right) =>
      var ret := StringDerive(ctxt, left, t, fuel);
      if ret == None {
        return None;
      }
      ghost var s1 := ctxt.store;
      GreedyStays(s, s1, right, t);
      OneWayStays(s, s1, right, t);
      LanguageStays(s, s1, right);
      if ret.value == FORBIDDEN {
        assert ctxt.store[left] == s[left];
        if ctxt.store[left].nillable {
          r := StringDerive(ctxt, right, t, fuel);
        } else {
          r := ret;
        }
      } else {
        SeqPartsFound(s, e);
        var id := ctxt.GetSeq(ret.value, right);
        r := Some(id);
      }
    case Count(body, min, max) =>
      r := DeriveCount(ctxt, e, t, fuel);
  }

  lemma SeqPartsFound(s: Store, e: nat)
    requires WellFormed(s) && e < |s|
    ensures s[e].node.Seq? ==> s[e].node.right != FORBIDDEN
  {
    if e >= 2 {
      assert Canonical(s[..e], s[e].node, s[e].nillable);
    }
  }

  /** The COUNT case: derive the body once, then expect one copy less. */
  method DeriveCount(ctxt: ExpContext, e: nat, t: Token, fuel: nat) returns (r: Option<nat>)
    requires ctxt.Valid() && e < |ctxt.store| && ctxt.store[e].node.Count?
    modifies ctxt
    ensures ctxt.Valid() && old(ctxt.store) <= ctxt.store
    ensures r.Some? ==>
      && r.value < |ctxt.store|
      && L(ctxt.store, r.value) == Greedy(old(ctxt.store), e, t)
      && (r.value == FORBIDDEN <==> !Finds(old(ctxt.store), e, t))
    ensures OneWay(old(ctxt.store), e, t) ==> r.Some?
    decreases e, 0
  {
    ghost var s := ctxt.store;
    var Count(body, expMin, expMax) := ctxt.store[e].node;
    assert PartsBelow(s[e].node, e);
    OnlyCanonical(s, e);
    if expMax == 0 {
      return Some(FORBIDDEN);
    }
    var ret := StringDerive(ctxt, body, t, fuel);
    if ret == None {
      return None;
    }
    LanguageStays(s, ctxt.store, body);
    if ret.value == FORBIDDEN {
      NothingFound(s, body, t);
      CatNothing(Rep(L(s, body), Less(expMin), LessMax(expMax)));
      return ret;
    }
    var id := OneCopyLess(ctxt, ret.value, body, expMin, expMax);
    r := Some(id);
  }

  /** The derived body, followed by the remaining copies. */
  method OneCopyLess(ctxt: ExpContext, ret: nat, body: nat, expMin: int, expMax: int) returns (r: nat)
    requires ctxt.Valid() && ret < |ctxt.store| && body < |ctxt.store|
    requires WellFormedCount(expMin, expMax) && expMax != 0 && ret != FORBIDDEN && body != FORBIDDEN
    modifies ctxt
    ensures ctxt.Valid() && old(ctxt.store) <= ctxt.store && r < |ctxt.store| && r != FORBIDDEN
    ensures L(ctxt.store, r)
         == Cat(L(old(ctxt.store), ret), Rep(L(old(ctxt.store), body), Less(expMin), LessMax(expMax)))
  {
    ghost var d, a := L(ctxt.store, ret), L(ctxt.store, body);
    if expMax == 1 {
      LastCopy(d, a, expMin);
      return ret;
    }
    var max := if expMax < 0 then -1 else expMax - 1;
    var min := if expMin > 0 then expMin - 1 else 0;
    ghost var s := ctxt.store;
    var tmp := ctxt.GetCount(body, min, max);
    LanguageStays(s, ctxt.store, ret);
    if ret == EMPTY {
      CatEmptyLeft(L(ctxt.store, tmp));
      return tmp;
    }
    r := ctxt.GetSeq(ret, tmp);
  }

  lemma LastCopy(d: Language, a: Language, min: int)
    requires WellFormedCount(min, 1)
    ensures Cat(d, Rep(a, Less(min), LessMax(1))) == d
  {
    RepOnce(a);
    CatEmptyRight(d);
  }
}
