/** Families of finite sets: extremal members, hitting sets and transversal duality. */
module Hypergraphs {
  import opened Sets

  type Edge = set<nat>
  type Family = set<Edge>

  ghost predicate Hits(t: Edge, f: Family) {
    forall e :: e in f ==> t * e != {}
  }

  ghost predicate IsMinimalHittingSet(t: Edge, f: Family) {
    Hits(t, f) && forall u :: u < t ==> !Hits(u, f)
  }

  ghost function Vertices(f: Family): set<nat> {
    set e, v | e in f && v in e :: v
  }

  /** The transversal hypergraph of f. */
  ghost function MinimalHittingSets(f: Family): Family {
    set t | t <= Vertices(f) && IsMinimalHittingSet(t, f)
  }

  ghost predicate IsMinimalIn(x: Edge, f: Family) {
    x in f && forall y :: y in f ==> !(y < x)
  }

  ghost predicate IsMaximalIn(x: Edge, f: Family) {
    x in f && forall y :: y in f ==> !(x < y)
  }

  ghost function MinimalMembers(f: Family): Family {
    set x | x in f && IsMinimalIn(x, f)
  }

  ghost function MaximalMembers(f: Family): Family {
    set x | x in f && IsMaximalIn(x, f)
  }

  ghost predicate Antichain(f: Family) {
    forall x, y :: x in f && y in f ==> !(x < y)
  }

  ghost function Complements(f: Family, universe: Edge): Family {
    set x | x in f :: universe - x
  }

  /** Every hitting set can be thinned to a minimal one. */
  lemma {:induction false} ThinToMinimal(t: Edge, f: Family) returns (m: Edge)
    requires Hits(t, f)
    ensures m <= t && IsMinimalHittingSet(m, f)
    decreases |t|
  {
    if u :| u < t && Hits(u, f) {
      ProperSubsetIsSmaller(u, t);
      m := ThinToMinimal(u, f);
    } else {
      m := t;
    }
  }

  /** A minimal hitting set uses no vertex outside the family, so it is a member of MinimalHittingSets. */
  lemma MinimalStaysInside(t: Edge, f: Family)
    requires IsMinimalHittingSet(t, f)
    ensures t in MinimalHittingSets(f)
  {
    var u := t * Vertices(f);
    forall e | e in f
      ensures u * e != {}
    {
      var v :| v in t * e;
      assert v in Vertices(f);
      assert v in u * e;
    }
    assert u <= t;
    assert u == t;
  }

  /** Every member of f contains a minimal member of f. */
  lemma {:induction false} ThinToMinimalMember(x: Edge, f: Family) returns (m: Edge)
    requires x in f
    ensures m <= x && IsMinimalIn(m, f)
    decreases |x|
  {
    if y :| y in f && y < x {
      ProperSubsetIsSmaller(y, x);
      m := ThinToMinimalMember(y, f);
    } else {
      m := x;
    }
  }

  ghost predicate ContainsMember(x: Edge, f: Family) {
    exists e :: e in f && e <= x
  }

  /** Nothing smaller than a member of an antichain contains a member. */
  lemma AntichainBlocks(f: Family, m: Edge, u: Edge)
    requires Antichain(f) && m in f && u < m
    ensures !ContainsMember(u, f)
  {
  }

  ghost predicate InsideMember(x: Edge, f: Family) {
    exists e :: e in f && x <= e
  }

  /** A set hits every minimal hitting set of f exactly when it contains a member of f. */
  lemma HittingTheTransversal(x: Edge, f: Family)
    ensures Hits(x, MinimalHittingSets(f)) <==> ContainsMember(x, f)
  {
    if e :| e in f && e <= x {
      forall t | t in MinimalHittingSets(f)
        ensures x * t != {}
      {
        var v :| v in t * e;
        assert v in x * t;
      }
    } else {
      var rest := Vertices(f) - x;
      forall e | e in f
        ensures rest * e != {}
      {
        assert !(e <= x);
        var v :| v in e && v !in x;
        assert v in rest * e;
      }
      var t := ThinToMinimal(rest, f);
      MinimalStaysInside(t, f);
      assert x * t == {};
    }
  }

  lemma MinimalForTransversal(x: Edge, f: Family)
    ensures IsMinimalHittingSet(x, MinimalHittingSets(f)) <==> IsMinimalIn(x, f)
  {
    var g := MinimalHittingSets(f);
    HittingTheTransversal(x, f);
    if IsMinimalHittingSet(x, g) {
      var e :| e in f && e <= x;
      HittingTheTransversal(e, f);
      assert e == x;
      forall y | y in f
        ensures !(y < x)
      {
        HittingTheTransversal(y, f);
      }
    }
    if IsMinimalIn(x, f) {
      forall u | u < x
        ensures !Hits(u, g)
      {
        HittingTheTransversal(u, f);
      }
    }
  }

  /** Transversal duality: two rounds of minimal hitting sets give back the minimal members. */
  lemma TransversalDuality(f: Family)
    ensures MinimalHittingSets(MinimalHittingSets(f)) == MinimalMembers(f)
  {
    forall x
      ensures x in MinimalHittingSets(MinimalHittingSets(f)) <==> x in MinimalMembers(f)
    {
      MinimalForTransversal(x, f);
      InTransversal(x, MinimalHittingSets(f));
    }
  }

  lemma MinimalMembersOfAntichain(f: Family)
    requires Antichain(f)
    ensures MinimalMembers(f) == f
  {
  }

  lemma ComplementReversesInclusion(x: Edge, y: Edge, universe: Edge)
    requires x <= universe && y <= universe
    ensures universe - x <= universe - y <==> y <= x
  {
    if universe - x <= universe - y {
      forall v | v in y
        ensures v in x
      {
        assert v in universe - x <==> v !in x;
      }
    }
  }

  /** t hits all complements of f (within the universe) exactly when t lies inside no member of f. */
  lemma HittingComplements(t: Edge, f: Family, universe: Edge)
    requires t <= universe
    ensures Hits(t, Complements(f, universe)) <==> !InsideMember(t, f)
  {
    if !InsideMember(t, f) {
      forall e | e in Complements(f, universe)
        ensures t * e != {}
      {
        var x :| x in f && e == universe - x;
        var v :| v in t && v !in x;
        assert v in t * e;
      }
    }
    if Hits(t, Complements(f, universe)) {
      forall x | x in f
        ensures !(t <= x)
      {
        var e := universe - x;
        assert e in Complements(f, universe);
        var v :| v in t * e;
      }
    }
  }

  /** The complement of t hits f exactly when t contains no member of f. */
  lemma ComplementHits(t: Edge, f: Family, universe: Edge)
    requires t <= universe && forall x :: x in f ==> x <= universe
    ensures Hits(universe - t, f) <==> !ContainsMember(t, f)
  {
    if !ContainsMember(t, f) {
      forall x | x in f
        ensures (universe - t) * x != {}
      {
        var v :| v in x && v !in t;
        assert v in (universe - t) * x;
      }
    }
    if Hits(universe - t, f) {
      forall x | x in f
        ensures !(x <= t)
      {
        var v :| v in (universe - t) * x;
      }
    }
  }

  /** The minimal schemas that no member of m contains. */
  ghost predicate IsMinimalUncovered(t: Edge, m: Family, universe: Edge) {
    t <= universe && !InsideMember(t, m) && forall u :: u < t ==> InsideMember(u, m)
  }

  /** The maximal schemas that contain no member of f. */
  ghost predicate IsMaximalFree(t: Edge, f: Family, universe: Edge) {
    t <= universe && !ContainsMember(t, f) && forall u :: t < u <= universe ==> ContainsMember(u, f)
  }

  /** Border conversion, from below: the minimal hitting sets of the complements are the minimal uncovered sets. */
  lemma LowerBorder(t: Edge, m: Family, universe: Edge)
    ensures t in MinimalHittingSets(Complements(m, universe)) <==> IsMinimalUncovered(t, m, universe)
  {
    var f := Complements(m, universe);
    if t <= Vertices(f) {
      forall v | v in t
        ensures v in universe
      {
        assert v in Vertices(f);
      }
    }
    if t <= universe {
      HittingComplements(t, m, universe);
      forall u | u < t
        ensures Hits(u, f) <==> !InsideMember(u, m)
      {
        HittingComplements(u, m, universe);
      }
      InTransversal(t, f);
    }
  }

  /** Border conversion, from above: complementing the minimal hitting sets gives the maximal free sets. */
  lemma UpperBorder(t: Edge, f: Family, universe: Edge)
    requires forall x :: x in f ==> x <= universe
    ensures t in Complements(MinimalHittingSets(f), universe) <==> IsMaximalFree(t, f, universe)
  {
    TransversalWithin(f, universe);
    InComplements(t, MinimalHittingSets(f), universe);
    if t <= universe {
      InTransversal(universe - t, f);
      MinimalComplementIsMaximalFree(t, f, universe);
    }
  }

  lemma MinimalComplementIsMaximalFree(t: Edge, f: Family, universe: Edge)
    requires t <= universe && forall x :: x in f ==> x <= universe
    ensures IsMinimalHittingSet(universe - t, f) <==> IsMaximalFree(t, f, universe)
  {
    ComplementHits(t, f, universe);
    MinimalAgainstMaximal(t, f, universe);
  }

  lemma InTransversal(t: Edge, f: Family)
    ensures t in MinimalHittingSets(f) <==> IsMinimalHittingSet(t, f)
  {
    if IsMinimalHittingSet(t, f) {
      MinimalStaysInside(t, f);
    }
  }

  lemma TransversalWithin(f: Family, universe: Edge)
    requires forall x :: x in f ==> x <= universe
    ensures forall h :: h in MinimalHittingSets(f) ==> h <= universe
  {
    assert Vertices(f) <= universe;
  }

  lemma InComplements(t: Edge, g: Family, universe: Edge)
    requires forall x :: x in g ==> x <= universe
    ensures t in Complements(g, universe) <==> t <= universe && universe - t in g
  {
    if t in Complements(g, universe) {
      var h :| h in g && t == universe - h;
      assert h == universe - t;
    }
    if t <= universe && universe - t in g {
      assert t == universe - (universe - t);
    }
  }

  lemma MinimalAgainstMaximal(t: Edge, f: Family, universe: Edge)
    requires t <= universe && forall x :: x in f ==> x <= universe
    ensures (forall u :: u < universe - t ==> !Hits(u, f)) <==> (forall u :: t < u <= universe ==> ContainsMember(u, f))
  {
    if forall u :: u < universe - t ==> !Hits(u, f) {
      forall u | t < u <= universe
        ensures ContainsMember(u, f)
      {
        ComplementHits(u, f, universe);
        assert universe - u < universe - t;
      }
    }
    if forall u :: t < u <= universe ==> ContainsMember(u, f) {
      forall u | u < universe - t
        ensures !Hits(u, f)
      {
        var bigger := universe - u;
        assert universe - bigger == u;
        assert t < bigger;
        ComplementHits(bigger, f, universe);
      }
    }
  }

  /**
   * No set is pending: everything is inside a member of h or contains a member of f, exactly when
   * every minimal hitting set of the complements of h contains a member of f.
   */
  lemma NoPendingSets(h: Family, f: Family, universe: Edge)
    ensures (forall s :: s <= universe ==> InsideMember(s, h) || ContainsMember(s, f))
       <==> (forall b :: b in MinimalHittingSets(Complements(h, universe)) ==> ContainsMember(b, f))
  {
    var g := Complements(h, universe);
    if forall b :: b in MinimalHittingSets(g) ==> ContainsMember(b, f) {
      forall s | s <= universe && !InsideMember(s, h)
        ensures ContainsMember(s, f)
      {
        HittingComplements(s, h, universe);
        var b := ThinToMinimal(s, g);
        MinimalStaysInside(b, g);
        var y :| y in f && y <= b;
        assert y <= s;
      }
    }
    if forall s :: s <= universe ==> InsideMember(s, h) || ContainsMember(s, f) {
      forall b | b in MinimalHittingSets(g)
        ensures ContainsMember(b, f)
      {
        LowerBorder(b, h, universe);
      }
    }
  }
}
