/** Parameter combinations: one value per parameter, or UNKNOWN where the parameter is free. */
module Combs {
  import opened Results

  const UNKNOWN := -1

  type Comb = seq<int>

  /** The parameters a combination fixes. */
  ghost function Known(c: Comb): set<nat> {
    set i | 0 <= i < |c| && c[i] != UNKNOWN
  }

  /** Some parameter is free, so the combination is not a test. */
  ghost predicate Partial(c: Comb) {
    UNKNOWN in c
  }

  /** b is a part of a: a agrees with b wherever b is known. */
  ghost predicate Covers(a: Comb, b: Comb) {
    |a| == |b| && forall i :: 0 <= i < |a| ==> b[i] == UNKNOWN || b[i] == a[i]
  }

  /** No parameter is fixed. */
  ghost predicate AllUnknown(c: Comb) {
    Known(c) == {}
  }

  method FromList(values: seq<int>) returns (r: Result<Comb>)
    ensures r.Ok? <==> forall i :: 0 <= i < |values| ==> values[i] >= UNKNOWN
    ensures r.Ok? ==> r.value == values
  {
    for i := 0 to |values|
      invariant forall j :: 0 <= j < i ==> values[j] >= UNKNOWN
    {
      if values[i] < 0 && values[i] != UNKNOWN {
        return Err;
      }
    }
    r := Ok(values);
  }

  method Contains(a: Comb, b: Comb) returns (r: Result<bool>)
    ensures r == if |a| == |b| then Ok(Covers(a, b)) else Err
  {
    if |a| != |b| {
      return Err;
    }
    for i := 0 to |a|
      invariant forall j :: 0 <= j < i ==> b[j] == UNKNOWN || b[j] == a[j]
    {
      if a[i] != b[i] && b[i] != UNKNOWN {
        return Ok(false);
      }
    }
    r := Ok(true);
  }

  /** The part of a test that fixes exactly the given parameters. */
  ghost function Mask(test: Comb, fixed: set<nat>): (c: Comb)
    ensures |c| == |test|
  {
    seq(|test|, i requires 0 <= i < |test| => if i in fixed then test[i] else UNKNOWN)
  }

  lemma KnownOfMask(test: Comb, fixed: set<nat>)
    requires !Partial(test)
    requires forall i :: i in fixed ==> i < |test|
    ensures Known(Mask(test, fixed)) == fixed
  {
    forall i | i in fixed
      ensures i in Known(Mask(test, fixed))
    {
      assert test[i] in test;
    }
  }

  /** A masked test covers a combination exactly when the test does and every known parameter is kept. */
  lemma MaskCovers(test: Comb, fixed: set<nat>, c: Comb)
    ensures Covers(Mask(test, fixed), c) <==> Covers(test, c) && Known(c) <= fixed
  {
    if Covers(Mask(test, fixed), c) {
      forall i | i in Known(c)
        ensures i in fixed
      {
        assert Mask(test, fixed)[i] == c[i];
      }
    }
  }

  /** A combination that a test covers is the test masked to what the combination knows. */
  lemma CoveredIsMask(test: Comb, c: Comb)
    requires Covers(test, c)
    ensures c == Mask(test, Known(c))
  {
    forall i | 0 <= i < |c|
      ensures c[i] == Mask(test, Known(c))[i]
    {
      assert i in Known(c) <==> c[i] != UNKNOWN;
    }
  }

  lemma CoversTransitive(a: Comb, b: Comb, c: Comb)
    requires Covers(a, b) && Covers(b, c)
    ensures Covers(a, c)
  {
  }
}
