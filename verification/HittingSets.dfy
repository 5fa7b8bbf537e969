/** Enumeration of minimal hitting sets by backtracking over one shared schema. */
module HittingSets {
  import opened Results
  import opened Hypergraphs
  import opened Schemas
  import opened MonotoneSets

  /** Every set that had a member of `before` below it has a member of `now` below it. */
  ghost predicate Covered(before: Family, now: Family) {
    forall o :: o in before ==> ContainsMember(o, now)
  }

  /** Members come from `before` or are hitting sets of f that extend `ans`. */
  ghost predicate Sound(before: Family, now: Family, ans: Edge, f: Family) {
    forall m :: m in now ==> m in before || (ans <= m && Hits(m, f))
  }

  /** Every hitting set of f that extends `ans` has a member of `now` below it. */
  ghost predicate Complete(now: Family, ans: Edge, f: Family) {
    forall t :: ans <= t && Hits(t, f) ==> ContainsMember(t, now)
  }

  /** Complete for the extensions of `ans` that use one of the given vertices. */
  ghost predicate CompleteThrough(now: Family, ans: Edge, f: Family, vertices: seq<nat>) {
    forall t, i :: i in vertices && i in t && ans <= t && Hits(t, f) ==> ContainsMember(t, now)
  }

  lemma ContainsThrough(t: Edge, before: Family, now: Family)
    requires ContainsMember(t, before) && Covered(before, now)
    ensures ContainsMember(t, now)
  {
    var o :| o in before && o <= t;
    var m :| m in now && m <= o;
    assert m <= t;
  }

  lemma LeafAdds(before: Family, ans: Edge, f: Family)
    requires Hits(ans, f)
    ensures var now := MinimalMembers(before + {ans});
            Covered(before, now) && Sound(before, now, ans, f) && Complete(now, ans, f)
  {
    var now := MinimalMembers(before + {ans});
    forall o | o in before + {ans}
      ensures ContainsMember(o, now)
    {
      var m := ThinToMinimalMember(o, before + {ans});
      assert m in now;
    }
    forall t | ans <= t && Hits(t, f)
      ensures ContainsMember(t, now)
    {
      ContainsThrough(t, {ans}, now);
    }
  }

  /** Trying one more vertex of the edge that has to be hit. */
  lemma BranchStep(before: Family, mid: Family, now: Family, ans: Edge, f: Family, tried: seq<nat>, i: nat)
    requires Covered(before, mid) && Sound(before, mid, ans, f) && CompleteThrough(mid, ans, f, tried)
    requires Covered(mid, now) && Sound(mid, now, ans + {i}, f) && Complete(now, ans + {i}, f)
    ensures Covered(before, now) && Sound(before, now, ans, f) && CompleteThrough(now, ans, f, tried + [i])
  {
    forall o | o in before
      ensures ContainsMember(o, now)
    {
      ContainsThrough(o, mid, now);
    }
    forall t, j | j in tried + [i] && j in t && ans <= t && Hits(t, f)
      ensures ContainsMember(t, now)
    {
      if j == i {
        assert ans + {i} <= t;
      } else {
        assert j in tried;
        ContainsThrough(t, mid, now);
      }
    }
  }

  /** All vertices of an edge of f were tried: nothing is missing. */
  lemma BranchEnd(now: Family, ans: Edge, f: Family, edge: Edge, tried: seq<nat>)
    requires edge in f && CompleteThrough(now, ans, f, tried)
    requires forall i :: i in edge ==> i in tried
    ensures Complete(now, ans, f)
  {
    forall t | ans <= t && Hits(t, f)
      ensures ContainsMember(t, now)
    {
      var i :| i in t * edge;
      assert i in tried;
    }
  }

  lemma CollectedIsMinimal(now: Family, f: Family, m: Edge)
    requires Complete(now, {}, f) && Antichain(now)
    requires m in now && Hits(m, f)
    ensures IsMinimalHittingSet(m, f)
  {
    forall u | u < m
      ensures !Hits(u, f)
    {
      assert {} <= u;
      AntichainBlocks(now, m, u);
    }
  }

  lemma MinimalIsCollected(now: Family, f: Family, t: Edge)
    requires Sound({}, now, {}, f) && Complete(now, {}, f)
    requires IsMinimalHittingSet(t, f)
    ensures t in now
  {
    assert {} <= t;
    var m :| m in now && m <= t;
    assert Hits(m, f);
    assert m < t || m == t;
  }

  /** An antichain that is sound and complete from the empty set is the family of minimal hitting sets. */
  lemma ExactFamily(now: Family, f: Family)
    requires Sound({}, now, {}, f) && Complete(now, {}, f) && Antichain(now)
    ensures now == MinimalHittingSets(f)
  {
    forall t
      ensures t in now <==> t in MinimalHittingSets(f)
    {
      InTransversal(t, f);
      if t in now {
        CollectedIsMinimal(now, f, t);
      }
      if IsMinimalHittingSet(t, f) {
        MinimalIsCollected(now, f, t);
      }
    }
  }

  lemma PrefixFamily(list: seq<Schema>, k: nat)
    requires k < |list|
    ensures FamilyOf(list[..k + 1]) == FamilyOf(list[..k]) + {list[k].bits}
  {
    var next := list[..k + 1];
    assert next == list[..k] + [list[k]];
    forall e | e in FamilyOf(list[..k]) + {list[k].bits}
      ensures e in FamilyOf(next)
    {
      if e == list[k].bits {
        assert list[k] in next;
      } else {
        var s :| s in list[..k] && s.bits == e;
        assert s in next;
      }
    }
  }

  lemma AntichainFamily(list: seq<Schema>)
    requires IsAntichainList(list)
    ensures Antichain(FamilyOf(list))
  {
    NoMemberContainsAnother(list);
  }

  /**
   * The recursion leaves the shared schema as it found it, and afterwards the collected set accounts for
   * every hitting set of the list that extends the shared schema.
   */
  method MhsRecursive(ans: MutableSchema, mhs: MonotoneSchemaSet, list: seq<Schema>, index: nat)
    requires index <= |list|
    requires ans.Valid() && mhs.Valid() && mhs.isMinimal
    requires SameSize(list, ans.size) && SameSize(mhs.schemas, ans.size)
    requires Hits(ans.bits, FamilyOf(list[..index]))
    modifies ans, mhs
    ensures ans.bits == old(ans.bits)
    ensures mhs.Valid() && SameSize(mhs.schemas, ans.size)
    ensures Covered(old(mhs.Members()), mhs.Members())
    ensures Sound(old(mhs.Members()), mhs.Members(), ans.bits, FamilyOf(list))
    ensures Complete(mhs.Members(), ans.bits, FamilyOf(list))
    decreases |list| - index, 1
  {
    ghost var before, f := mhs.Members(), FamilyOf(list);
    if index == |list| {
      assert list[..index] == list;
      AddedIsExtremal(true, mhs.schemas, ans.View());
      LeafAdds(before, ans.bits, f);
      var added := mhs.Add(ans.View());
      return;
    }
    var cur := list[index];
    PrefixFamily(list, index);
    var overlaps := OverlapsWith(ans.View(), cur);
    if overlaps.value {
      MhsRecursive(ans, mhs, list, index + 1);
    } else {
      var indices := GetIndices(cur);
      TryEachVertex(ans, mhs, list, index, indices);
    }
  }

  /** The branching loop: every vertex of the unhit edge is set, explored and cleared again. */
  method TryEachVertex(ans: MutableSchema, mhs: MonotoneSchemaSet, list: seq<Schema>, index: nat, indices: seq<nat>)
    requires index < |list|
    requires ans.Valid() && mhs.Valid() && mhs.isMinimal
    requires SameSize(list, ans.size) && SameSize(mhs.schemas, ans.size)
    requires Hits(ans.bits, FamilyOf(list[..index])) && ans.bits * list[index].bits == {}
    requires forall i :: i in indices <==> i in list[index].bits
    modifies ans, mhs
    ensures ans.bits == old(ans.bits)
    ensures mhs.Valid() && SameSize(mhs.schemas, ans.size)
    ensures Covered(old(mhs.Members()), mhs.Members())
    ensures Sound(old(mhs.Members()), mhs.Members(), ans.bits, FamilyOf(list))
    ensures Complete(mhs.Members(), ans.bits, FamilyOf(list))
    decreases |list| - index, 0
  {
    ghost var before, start, f := mhs.Members(), ans.bits, FamilyOf(list);
    for k := 0 to |indices|
      invariant ans.Valid() && ans.bits == start
      invariant mhs.Valid() && SameSize(mhs.schemas, ans.size)
      invariant Covered(before, mhs.Members())
      invariant Sound(before, mhs.Members(), start, f)
      invariant CompleteThrough(mhs.Members(), start, f, indices[..k])
    {
      var i := indices[k];
      ghost var mid := mhs.Members();
      ans.Set(i, true);
      PrefixFamily(list, index);
      ExtendedHits(start, i, FamilyOf(list[..index]), list[index].bits);
      MhsRecursive(ans, mhs, list, index + 1);
      ans.Set(i, false);
      BranchStep(before, mid, mhs.Members(), start, f, indices[..k], i);
      assert indices[..k + 1] == indices[..k] + [i];
    }
    assert indices[..|indices|] == indices;
    BranchEnd(mhs.Members(), start, f, list[index].bits, indices);
  }

  lemma ExtendedHits(ans: Edge, i: nat, f: Family, edge: Edge)
    requires Hits(ans, f) && i in edge
    ensures Hits(ans + {i}, f + {edge})
  {
    forall e | e in f + {edge}
      ensures (ans + {i}) * e != {}
    {
      if e == edge {
        assert i in (ans + {i}) * e;
      } else {
        var v :| v in ans * e;
        assert v in (ans + {i}) * e;
      }
    }
  }

  /** All minimal hitting sets of an antichain; the empty set of schemas and the single empty schema are refused. */
  method GetMhs(schemaSet: MonotoneSchemaSet) returns (r: Result<MonotoneSchemaSet>)
    requires schemaSet.Valid()
    ensures r.Ok? <==> schemaSet.schemas != [] && {} !in schemaSet.Members()
    ensures r.Ok? ==>
      && fresh(r.value) && r.value.Valid() && r.value.isMinimal
      && SameSize(r.value.schemas, schemaSet.schemas[0].size)
      && r.value.Members() == MinimalHittingSets(schemaSet.Members())
  {
    if |schemaSet.schemas| == 0 {
      return Err;
    }
    var first := schemaSet.schemas[0];
    NoMemberContainsAnother(schemaSet.schemas);
    if |schemaSet.schemas| == 1 && |first.bits| == 0 {
      assert first in schemaSet.schemas;
      return Err;
    }
    EmptyStandsAlone(schemaSet.schemas);
    OneSize(schemaSet.schemas);
    var mhs := new MonotoneSchemaSet(true);
    var ans := new MutableSchema(first.size);
    assert schemaSet.schemas[..0] == [];
    MhsRecursive(ans, mhs, schemaSet.schemas, 0);
    AntichainFamily(mhs.schemas);
    ExactFamily(mhs.Members(), schemaSet.Members());
    r := Ok(mhs);
  }

  lemma EmptyStandsAlone(list: seq<Schema>)
    requires IsAntichainList(list) && list != []
    requires |list| != 1 || |list[0].bits| != 0
    ensures {} !in FamilyOf(list)
  {
    forall i | 0 <= i < |list|
      ensures list[i].bits != {}
    {
      if list[i].bits == {} && |list| > 1 {
        if i == 0 {
          PairIncomparable(list, 0, 1);
        } else {
          PairIncomparable(list, 0, i);
        }
      }
    }
  }

  lemma AllVerticesHit(f: Family)
    requires {} !in f
    ensures Hits(Vertices(f), f)
  {
    forall e | e in f
      ensures Vertices(f) * e != {}
    {
      assert e != {};
      var v :| v in e;
      assert v in Vertices(f) * e;
    }
  }

  lemma EmptyHitsNothing(f: Family)
    requires f != {}
    ensures !Hits({}, f)
  {
    var e :| e in f;
    assert {} * e == {};
  }

  /** What getMHS returns is never refused by another getMHS. */
  lemma TransversalAccepted(f: Family)
    requires f != {} && {} !in f
    ensures MinimalHittingSets(f) != {} && {} !in MinimalHittingSets(f)
  {
    AllVerticesHit(f);
    EmptyHitsNothing(f);
    var t := ThinToMinimal(Vertices(f), f);
    InTransversal(t, f);
    InTransversal({}, f);
  }

  /** The second round of getMHS is never refused, and it returns the original antichain. */
  lemma SecondRoundAccepted(f: Family)
    requires Antichain(f) && f != {} && {} !in f
    ensures MinimalHittingSets(f) != {} && {} !in MinimalHittingSets(f)
    ensures MinimalHittingSets(MinimalHittingSets(f)) == f
  {
    TransversalAccepted(f);
    TransversalDuality(f);
    MinimalMembersOfAntichain(f);
  }

  lemma EmptyFamily(list: seq<Schema>)
    ensures list == [] <==> FamilyOf(list) == {}
  {
    if list != [] {
      assert list[0].bits in FamilyOf(list);
    }
  }
}
