/** When a recorded history leaves no schema of a failing test pending. */
module PendingSchemas {
  import opened Combs
  import opened Hypergraphs
  import opened Schemas
  import opened FaultResolvers
  import opened Borders
  import opened NoPend

  /** The history holds exactly the parts of the test that the two families name. */
  ghost predicate Records(h: History, test: Comb, healthy: Family, faulty: Family) {
    && !Partial(test)
    && (forall x :: x in healthy + faulty ==> x <= Indices(|test|))
    && (forall c :: c in h.healthy <==> c in Masks(test, healthy))
    && (forall c :: c in h.faulty <==> c in Masks(test, faulty))
  }

  lemma MasksKeepOrder(test: Comb, s: Edge, t: Edge)
    requires !Partial(test) && s <= Indices(|test|) && t <= Indices(|test|)
    ensures Covers(Mask(test, t), Mask(test, s)) <==> s <= t
  {
    KnownOfMask(test, s);
    MaskCovers(test, t, Mask(test, s));
    CoversFull(test, s);
  }

  lemma CoversFull(test: Comb, s: Edge)
    ensures Covers(test, Mask(test, s))
  {
  }

  lemma HealthyOnSchemas(h: History, test: Comb, healthy: Family, faulty: Family, s: Edge)
    requires Records(h, test, healthy, faulty) && s <= Indices(|test|)
    ensures h.KnownHealthy(Mask(test, s)) <==> InsideMember(s, healthy)
  {
    var c := Mask(test, s);
    if h.KnownHealthy(c) {
      var k :| 0 <= k < |h.healthy| && Covers(h.healthy[k], c);
      assert h.healthy[k] in h.healthy;
      var x :| x in healthy && h.healthy[k] == Mask(test, x);
      MasksKeepOrder(test, s, x);
    }
    if InsideMember(s, healthy) {
      var x :| x in healthy && s <= x;
      MasksKeepOrder(test, s, x);
      assert Mask(test, x) in h.healthy;
      var k :| 0 <= k < |h.healthy| && h.healthy[k] == Mask(test, x);
    }
  }

  lemma FaultyOnSchemas(h: History, test: Comb, healthy: Family, faulty: Family, s: Edge)
    requires Records(h, test, healthy, faulty) && s <= Indices(|test|)
    ensures h.KnownFaulty(Mask(test, s)) <==> ContainsMember(s, faulty)
  {
    var c := Mask(test, s);
    if h.KnownFaulty(c) {
      var k :| 0 <= k < |h.faulty| && Covers(c, h.faulty[k]);
      assert h.faulty[k] in h.faulty;
      var x :| x in faulty && h.faulty[k] == Mask(test, x);
      MasksKeepOrder(test, x, s);
    }
    if ContainsMember(s, faulty) {
      var x :| x in faulty && x <= s;
      MasksKeepOrder(test, x, s);
      assert Mask(test, x) in h.faulty;
      var k :| 0 <= k < |h.faulty| && h.faulty[k] == Mask(test, x);
    }
  }

  lemma InsideMaximal(s: Edge, f: Family)
    ensures InsideMember(s, MaximalMembers(f)) <==> InsideMember(s, f)
  {
    if x :| x in f && s <= x {
      var m := ThinToMaximalMember(x, f, f);
      assert m in MaximalMembers(f);
      InsideDown(s, x, MaximalMembers(f));
    }
  }

  /**
   * No schema of the test is pending exactly when every minimal hitting set of the complements of the
   * maximal healthy schemas contains a faulty one.
   */
  lemma NoPendingCharacterisation(h: History, test: Comb, healthy: Family, faulty: Family)
    requires Records(h, test, healthy, faulty)
    ensures (forall s :: s <= Indices(|test|) ==> !h.Pending(Mask(test, s)))
       <==> (forall b :: b in MinimalHittingSets(Complements(MaximalMembers(healthy), Indices(|test|))) ==>
         ContainsMember(b, faulty))
  {
    var universe := Indices(|test|);
    forall s | s <= universe
      ensures !h.Pending(Mask(test, s)) <==> InsideMember(s, MaximalMembers(healthy)) || ContainsMember(s, faulty)
    {
      HealthyOnSchemas(h, test, healthy, faulty, s);
      FaultyOnSchemas(h, test, healthy, faulty, s);
      InsideMaximal(s, healthy);
    }
    NoPendingSets(MaximalMembers(healthy), faulty, universe);
  }
}
