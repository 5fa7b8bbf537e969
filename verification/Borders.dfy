/** The search space of one failing test: faulty and healthy schemas, pending schemas, and the two borders. */
module Borders {
  import opened Combs
  import opened Hypergraphs
  import opened SafeValues

  /** The non-empty schemas of a test that contain a faulty combination. */
  datatype Oracle = Oracle(mfs: seq<Comb>, test: Comb) {
    ghost predicate Fails(s: Edge) {
      IsFaulty(mfs, Mask(test, s))
    }

    ghost predicate Faulty(s: Edge) {
      s != {} && Fails(s)
    }

    lemma Monotone(s: Edge, t: Edge)
      requires s <= t
      ensures Fails(s) ==> Fails(t)
      ensures Faulty(s) ==> Faulty(t)
    {
      MaskMonotone(test, s, t);
      if Fails(s) {
        FaultyIsMonotone(mfs, Mask(test, t), Mask(test, s));
      }
    }
  }

  lemma MaskMonotone(test: Comb, s: Edge, t: Edge)
    requires s <= t
    ensures Covers(Mask(test, t), Mask(test, s))
  {
  }

  ghost predicate IsMinimalFaulty(o: Oracle, s: Edge) {
    o.Faulty(s) && forall u :: u < s ==> !o.Faulty(u)
  }

  ghost predicate IsMaximalHealthy(o: Oracle, universe: Edge, s: Edge) {
    !o.Faulty(s) && forall u :: s < u <= universe ==> o.Faulty(u)
  }

  ghost function MinimalFaulty(o: Oracle, universe: Edge): Family {
    set s | s <= universe && IsMinimalFaulty(o, s)
  }

  ghost function MaximalHealthy(o: Oracle, universe: Edge): Family {
    set s | s <= universe && IsMaximalHealthy(o, universe, s)
  }

  /** Faulty and healthy schemas found so far, all inside the universe. */
  ghost predicate Classified(o: Oracle, universe: Edge, minF: Family, maxP: Family) {
    && minF != {} && maxP != {}
    && (forall x :: x in minF ==> x <= universe && o.Faulty(x))
    && (forall x :: x in maxP ==> x <= universe && !o.Faulty(x))
  }

  ghost function Pending(universe: Edge, minF: Family, maxP: Family): set<Edge> {
    set s | s <= universe && !ContainsMember(s, minF) && !InsideMember(s, maxP)
  }

  /** Without pending schemas the two borders are exact. */
  lemma NothingPendingIsExact(o: Oracle, universe: Edge, minF: Family, maxP: Family)
    requires Classified(o, universe, minF, maxP) && Antichain(minF) && Antichain(maxP)
    requires Pending(universe, minF, maxP) == {}
    ensures minF == MinimalFaulty(o, universe) && maxP == MaximalHealthy(o, universe)
  {
    AllDecided(o, universe, minF, maxP);
    LowerExact(o, universe, minF);
    UpperExact(o, universe, maxP);
  }

  lemma LowerExact(o: Oracle, universe: Edge, minF: Family)
    requires Antichain(minF) && forall x :: x in minF ==> x <= universe
    requires DecidesFaulty(o, universe, minF)
    ensures minF == MinimalFaulty(o, universe)
  {
    forall s
      ensures s in minF <==> s in MinimalFaulty(o, universe)
    {
      ExactBelow(o, universe, minF, s);
    }
  }

  lemma UpperExact(o: Oracle, universe: Edge, maxP: Family)
    requires Antichain(maxP) && forall x :: x in maxP ==> x <= universe
    requires DecidesHealthy(o, universe, maxP)
    ensures maxP == MaximalHealthy(o, universe)
  {
    forall s
      ensures s in maxP <==> s in MaximalHealthy(o, universe)
    {
      ExactAbove(o, universe, maxP, s);
    }
  }

  ghost predicate DecidesFaulty(o: Oracle, universe: Edge, minF: Family) {
    forall t :: t <= universe ==> (o.Faulty(t) <==> ContainsMember(t, minF))
  }

  ghost predicate DecidesHealthy(o: Oracle, universe: Edge, maxP: Family) {
    forall t :: t <= universe ==> (!o.Faulty(t) <==> InsideMember(t, maxP))
  }

  lemma AllDecided(o: Oracle, universe: Edge, minF: Family, maxP: Family)
    requires Classified(o, universe, minF, maxP) && Pending(universe, minF, maxP) == {}
    ensures DecidesFaulty(o, universe, minF) && DecidesHealthy(o, universe, maxP)
  {
    forall s | s <= universe
      ensures o.Faulty(s) <==> ContainsMember(s, minF)
      ensures !o.Faulty(s) <==> InsideMember(s, maxP)
    {
      Decided(o, universe, minF, maxP, s);
    }
  }

  lemma Decided(o: Oracle, universe: Edge, minF: Family, maxP: Family, s: Edge)
    requires Classified(o, universe, minF, maxP) && Pending(universe, minF, maxP) == {} && s <= universe
    ensures o.Faulty(s) <==> ContainsMember(s, minF)
    ensures !o.Faulty(s) <==> InsideMember(s, maxP)
  {
    assert s !in Pending(universe, minF, maxP);
    if x :| x in minF && x <= s {
      o.Monotone(x, s);
    }
    if x :| x in maxP && s <= x {
      if o.Faulty(s) {
        o.Monotone(s, x);
      }
    }
  }

  lemma ExactBelow(o: Oracle, universe: Edge, minF: Family, s: Edge)
    requires Antichain(minF) && forall x :: x in minF ==> x <= universe
    requires DecidesFaulty(o, universe, minF)
    ensures s in minF <==> s in MinimalFaulty(o, universe)
  {
    if s in minF {
      MemberIsMinimal(o, universe, minF, s);
    }
    if s <= universe && IsMinimalFaulty(o, s) {
      MinimalIsMember(o, universe, minF, s);
    }
  }

  lemma MinimalIsMember(o: Oracle, universe: Edge, minF: Family, s: Edge)
    requires forall x :: x in minF ==> x <= universe
    requires DecidesFaulty(o, universe, minF)
    requires s <= universe && IsMinimalFaulty(o, s)
    ensures s in minF
  {
    assert o.Faulty(s);
    var x :| x in minF && x <= s;
    MemberIsFaulty(o, universe, minF, x);
    NothingBelow(o, s, x);
  }

  lemma NothingBelow(o: Oracle, s: Edge, x: Edge)
    requires IsMinimalFaulty(o, s) && x <= s && o.Faulty(x)
    ensures x == s
  {
    assert x < s || x == s;
  }

  lemma MemberIsFaulty(o: Oracle, universe: Edge, minF: Family, x: Edge)
    requires DecidesFaulty(o, universe, minF) && x in minF && x <= universe
    ensures o.Faulty(x)
  {
    assert x <= x && ContainsMember(x, minF);
  }

  lemma MemberIsMinimal(o: Oracle, universe: Edge, minF: Family, s: Edge)
    requires Antichain(minF) && s in minF && s <= universe
    requires DecidesFaulty(o, universe, minF)
    ensures IsMinimalFaulty(o, s)
  {
    assert ContainsMember(s, minF);
    forall u | u < s
      ensures !o.Faulty(u)
    {
      AntichainBlocks(minF, s, u);
      assert u <= universe;
    }
  }

  lemma ExactAbove(o: Oracle, universe: Edge, maxP: Family, s: Edge)
    requires Antichain(maxP) && forall x :: x in maxP ==> x <= universe
    requires DecidesHealthy(o, universe, maxP)
    ensures s in maxP <==> s in MaximalHealthy(o, universe)
  {
    if s in maxP {
      assert s <= universe && InsideMember(s, maxP);
      forall u | s < u <= universe
        ensures o.Faulty(u)
      {
        AntichainBlocksAbove(maxP, s, u);
      }
    }
    if s <= universe && IsMaximalHealthy(o, universe, s) {
      var x :| x in maxP && s <= x;
      assert x <= universe && InsideMember(x, maxP);
      assert s < x || x == s;
    }
  }

  lemma AntichainBlocksAbove(f: Family, m: Edge, u: Edge)
    requires Antichain(f) && m in f && m < u
    ensures !InsideMember(u, f)
  {
  }

  lemma ContainsUp(s: Edge, t: Edge, f: Family)
    requires s <= t && ContainsMember(s, f)
    ensures ContainsMember(t, f)
  {
    var x :| x in f && x <= s;
    assert x <= t;
  }

  lemma InsideDown(s: Edge, t: Edge, f: Family)
    requires s <= t && InsideMember(t, f)
    ensures InsideMember(s, f)
  {
    var x :| x in f && t <= x;
    assert s <= x;
  }

  /** The candidates for the two ends of a chain. */
  ghost function Tops(minF: Family, universe: Edge): Family {
    Complements(MinimalHittingSets(minF), universe)
  }

  ghost function Bottoms(maxP: Family, universe: Edge): Family {
    MinimalHittingSets(Complements(maxP, universe))
  }

  /** Everything between a bottom and a top is pending. */
  lemma BetweenIsPending(universe: Edge, minF: Family, maxP: Family, bottom: Edge, s: Edge, top: Edge)
    requires forall x :: x in minF ==> x <= universe
    requires bottom in Bottoms(maxP, universe) && top in Tops(minF, universe)
    requires bottom <= s <= top
    ensures s in Pending(universe, minF, maxP)
  {
    UpperBorder(top, minF, universe);
    LowerBorder(bottom, maxP, universe);
    if ContainsMember(s, minF) {
      ContainsUp(s, top, minF);
    }
    if InsideMember(s, maxP) {
      InsideDown(bottom, s, maxP);
    }
  }

  /** Below every pending schema there is a bottom, and above it a top. */
  lemma PendingHasChain(universe: Edge, minF: Family, maxP: Family, s: Edge) returns (bottom: Edge, top: Edge)
    requires forall x :: x in minF ==> x <= universe
    requires s in Pending(universe, minF, maxP)
    ensures bottom in Bottoms(maxP, universe) && top in Tops(minF, universe)
    ensures bottom <= s <= top
  {
    HittingComplements(s, maxP, universe);
    bottom := ThinToMinimal(s, Complements(maxP, universe));
    InTransversal(bottom, Complements(maxP, universe));
    ComplementHits(s, minF, universe);
    var t := ThinToMinimal(universe - s, minF);
    InTransversal(t, minF);
    top := universe - t;
    assert s <= top;
  }

  ghost predicate HasChain(tops: Family, bottoms: Family) {
    exists t, b :: t in tops && b in bottoms && b <= t
  }

  /** No chain is left exactly when nothing is pending. */
  lemma NoChainNothingPending(universe: Edge, minF: Family, maxP: Family)
    requires forall x :: x in minF ==> x <= universe
    ensures !HasChain(Tops(minF, universe), Bottoms(maxP, universe)) <==> Pending(universe, minF, maxP) == {}
  {
    var pending, tops, bottoms := Pending(universe, minF, maxP), Tops(minF, universe), Bottoms(maxP, universe);
    if pending != {} {
      var s :| s in pending;
      var b, t := PendingHasChain(universe, minF, maxP, s);
      assert b <= t;
    }
    if HasChain(tops, bottoms) {
      var t, b :| t in tops && b in bottoms && b <= t;
      BetweenIsPending(universe, minF, maxP, b, b, t);
    }
  }

  /** What was above (or below) a known schema stays so. */
  ghost predicate Grown(minF: Family, maxP: Family, minF': Family, maxP': Family) {
    && (forall x :: x in minF ==> ContainsMember(x, minF'))
    && (forall x :: x in maxP ==> InsideMember(x, maxP'))
  }

  /** Once decided, always decided; a decided schema that was pending makes the pending set smaller. */
  lemma PendingShrinks(universe: Edge, minF: Family, maxP: Family, minF': Family, maxP': Family, s: Edge)
    requires Grown(minF, maxP, minF', maxP')
    requires s in Pending(universe, minF, maxP)
    requires ContainsMember(s, minF') || InsideMember(s, maxP')
    ensures Pending(universe, minF', maxP') < Pending(universe, minF, maxP)
    ensures |Pending(universe, minF', maxP')| < |Pending(universe, minF, maxP)|
  {
    var before, after := Pending(universe, minF, maxP), Pending(universe, minF', maxP');
    forall t | t in after
      ensures t in before
    {
      StillDecided(minF, maxP, minF', maxP', t);
    }
    assert s in before && s !in after;
    assert before == after + (before - after);
    assert s in before - after;
  }

  lemma StillDecided(minF: Family, maxP: Family, minF': Family, maxP': Family, t: Edge)
    requires Grown(minF, maxP, minF', maxP')
    ensures ContainsMember(t, minF) ==> ContainsMember(t, minF')
    ensures InsideMember(t, maxP) ==> InsideMember(t, maxP')
  {
    if x :| x in minF && x <= t {
      ContainsUp(x, t, minF');
    }
    if x :| x in maxP && t <= x {
      InsideDown(t, x, maxP');
    }
  }

  lemma {:induction false} ThinToMaximalMember(x: Edge, f: Family, g: Family) returns (m: Edge)
    requires x in f && g <= f
    requires forall y :: y in f && x < y ==> y in g
    ensures m in f && x <= m && IsMaximalIn(m, f)
    decreases |g|
  {
    if y :| y in f && x < y {
      var rest := g - {y};
      assert g == rest + {y};
      m := ThinToMaximalMember(y, f, rest);
    } else {
      m := x;
    }
  }

  /** Adding one faulty schema to the minimal border. */
  lemma AddFaulty(minF: Family, maxP: Family, x: Edge)
    ensures Grown(minF + {x}, maxP, MinimalMembers(minF + {x}), maxP)
  {
    var all := minF + {x};
    forall y | y in all
      ensures ContainsMember(y, MinimalMembers(all))
    {
      var m := ThinToMinimalMember(y, all);
      assert m in MinimalMembers(all);
    }
  }

  /** Adding one healthy schema to the maximal border. */
  lemma AddHealthy(minF: Family, maxP: Family, x: Edge)
    ensures Grown(minF, maxP + {x}, minF, MaximalMembers(maxP + {x}))
  {
    var all := maxP + {x};
    forall y | y in all
      ensures InsideMember(y, MaximalMembers(all))
    {
      var m := ThinToMaximalMember(y, all, all);
      assert m in MaximalMembers(all);
    }
  }
}
