/** What the run identifies, measured against the real minimal faulty combinations. */
module Exactness {
  import opened Combs
  import opened Hypergraphs
  import opened Schemas
  import opened SafeValues
  import opened FaultResolvers
  import opened Borders
  import opened NoPend

  /** A real faulty combination none of whose proper parts is another one. */
  ghost predicate IsMinimalMfs(mfs: seq<Comb>, c: Comb) {
    c in mfs && forall m :: m in mfs && Covers(c, m) ==> m == c
  }

  /** The minimal faulty combinations that some failing test shows. */
  ghost function Expected(mfs: seq<Comb>, tests: seq<Comb>): set<Comb> {
    set c | c in mfs && IsMinimalMfs(mfs, c) && exists k :: 0 <= k < |tests| && Covers(tests[k], c)
  }

  ghost predicate HasEmptyMfs(mfs: seq<Comb>) {
    exists m :: m in mfs && AllUnknown(m)
  }

  lemma FaultySchemaHasMfs(o: Oracle, s: Edge) returns (m: Comb)
    requires o.Fails(s)
    ensures m in o.mfs && Covers(o.test, m) && Combs.Known(m) <= s && m == Mask(o.test, Combs.Known(m))
  {
    var k :| 0 <= k < |o.mfs| && Covers(Mask(o.test, s), o.mfs[k]);
    m := o.mfs[k];
    MaskCovers(o.test, s, m);
    CoveredIsMask(o.test, m);
  }

  lemma MfsSchemaFails(o: Oracle, m: Comb, s: Edge)
    requires m in o.mfs && Covers(o.test, m) && Combs.Known(m) <= s
    ensures o.Fails(s)
  {
    var k :| 0 <= k < |o.mfs| && o.mfs[k] == m;
    MaskCovers(o.test, s, m);
  }

  /** A minimal faulty schema of a test is a minimal real faulty combination. */
  lemma MinimalSchemaIsMfs(o: Oracle, s: Edge)
    requires !HasEmptyMfs(o.mfs) && IsMinimalFaulty(o, s)
    ensures IsMinimalMfs(o.mfs, Mask(o.test, s)) && Covers(o.test, Mask(o.test, s))
  {
    var m := FaultySchemaHasMfs(o, s);
    var known := Combs.Known(m);
    assert !AllUnknown(m);
    MfsSchemaFails(o, m, known);
    assert known < s || known == s;
    assert Mask(o.test, s) == m;
    forall m' | m' in o.mfs && Covers(m, m')
      ensures m' == m
    {
      CoversTransitive(o.test, m, m');
      MaskCovers(o.test, s, m');
      var known' := Combs.Known(m');
      assert !AllUnknown(m');
      MfsSchemaFails(o, m', known');
      assert known' < s || known' == s;
      CoveredIsMask(o.test, m');
    }
  }

  /** And every minimal real faulty combination in the test is found. */
  lemma MfsIsMinimalSchema(o: Oracle, c: Comb)
    requires !HasEmptyMfs(o.mfs) && IsMinimalMfs(o.mfs, c) && Covers(o.test, c)
    ensures Combs.Known(c) in MinimalFaulty(o, Indices(|o.test|)) && Mask(o.test, Combs.Known(c)) == c
  {
    var s := Combs.Known(c);
    CoveredIsMask(o.test, c);
    KnownWithin(c);
    assert !AllUnknown(c);
    MfsSchemaFails(o, c, s);
    forall u | u < s
      ensures !o.Faulty(u)
    {
      if o.Fails(u) {
        var m := FaultySchemaHasMfs(o, u);
        MaskCovers(o.test, s, m);
      }
    }
  }

  lemma FoundInTest(mfs: seq<Comb>, test: Comb)
    requires !HasEmptyMfs(mfs)
    ensures Masks(test, MinimalFaulty(Oracle(mfs, test), Indices(|test|)))
         == set c | c in mfs && IsMinimalMfs(mfs, c) && Covers(test, c)
  {
    var o := Oracle(mfs, test);
    var found := Masks(test, MinimalFaulty(o, Indices(|test|)));
    forall c | c in found
      ensures c in mfs && IsMinimalMfs(mfs, c) && Covers(test, c)
    {
      var s :| s in MinimalFaulty(o, Indices(|test|)) && c == Mask(test, s);
      MinimalSchemaIsMfs(o, s);
    }
    forall c | c in mfs && IsMinimalMfs(mfs, c) && Covers(test, c)
      ensures c in found
    {
      MfsIsMinimalSchema(o, c);
    }
  }

  lemma {:induction false} FoundIsExpected(mfs: seq<Comb>, tests: seq<Comb>)
    requires !HasEmptyMfs(mfs)
    ensures Found(mfs, tests) == Expected(mfs, tests)
  {
    if tests != [] {
      var front, last := tests[..|tests| - 1], tests[|tests| - 1];
      FoundIsExpected(mfs, front);
      FoundInTest(mfs, last);
      forall c
        ensures c in Found(mfs, tests) <==> c in Expected(mfs, tests)
      {
        if c in Expected(mfs, tests) {
          var k :| 0 <= k < |tests| && Covers(tests[k], c);
          assert k < |front| ==> Covers(front[k], c);
        }
        if c in Expected(mfs, front) {
          var k :| 0 <= k < |front| && Covers(front[k], c);
          assert Covers(tests[k], c);
        }
      }
    }
  }

  lemma {:induction false} FoundKnowsSomething(mfs: seq<Comb>, tests: seq<Comb>, c: Comb)
    requires forall k :: 0 <= k < |tests| ==> Binary(tests[k])
    requires c in Found(mfs, tests)
    ensures !AllUnknown(c)
  {
    var front, last := tests[..|tests| - 1], tests[|tests| - 1];
    var o := Oracle(mfs, last);
    if s :| s in MinimalFaulty(o, Indices(|last|)) && c == Mask(last, s) {
      KnownOfMask(last, s);
    } else {
      FoundKnowsSomething(mfs, front, c);
    }
  }

  /**
   * Recall and precision are both perfect, exactly when no faulty combination is the empty one: the
   * resolver takes the empty schema as healthy without a check.
   */
  lemma NoPendIsExact(mfs: seq<Comb>, tests: seq<Comb>, n: nat)
    requires SameLength(mfs, n) && |tests| > 0
    requires forall k :: 0 <= k < |tests| ==> |tests[k]| == n && Binary(tests[k])
    ensures Found(mfs, tests) == Expected(mfs, tests) <==> !HasEmptyMfs(mfs)
  {
    if HasEmptyMfs(mfs) {
      var m :| m in mfs && AllUnknown(m);
      EmptyMfsExpected(mfs, tests, m, n);
      if m in Found(mfs, tests) {
        FoundKnowsSomething(mfs, tests, m);
      }
    } else {
      FoundIsExpected(mfs, tests);
    }
  }

  lemma EmptyMfsExpected(mfs: seq<Comb>, tests: seq<Comb>, m: Comb, n: nat)
    requires SameLength(mfs, n) && |tests| > 0 && |tests[0]| == n
    requires m in mfs && AllUnknown(m)
    ensures m in Expected(mfs, tests)
  {
    assert |m| == n;
    forall i | 0 <= i < n
      ensures m[i] == UNKNOWN
    {
      assert i !in Combs.Known(m);
    }
    assert Covers(tests[0], m);
    forall m' | m' in mfs && Covers(m, m')
      ensures m' == m
    {
      assert |m'| == n;
    }
  }
}
