/** The NoPend fault resolver: eliminating pending schemas of a failing test until none is left. */
module NoPend {
  import opened Sets
  import opened Results
  import opened Combs
  import opened Hypergraphs
  import opened Schemas
  import opened MonotoneSets
  import opened HittingSets
  import opened SafeValues
  import opened FaultResolvers
  import opened Borders

  ghost function Span(top: Schema, bottom: Schema): int {
    |top.bits| - |bottom.bits|
  }

  /** The longest chain from a bottom schema up to a top schema that contains it. */
  method GetLongestChain(tops: MonotoneSchemaSet, bottoms: MonotoneSchemaSet)
    returns (r: Result<Option<(Schema, Schema)>>)
    requires tops.Valid() && bottoms.Valid()
    ensures r.Err? <==> tops.schemas == [] || bottoms.schemas == [] || tops.schemas[0].size != bottoms.schemas[0].size
    ensures r.Ok? ==> (r.value == None <==> !HasChain(tops.Members(), bottoms.Members()))
    ensures r.Ok? && r.value.Some? ==>
      var (top, bottom) := r.value.value;
      && top in tops.schemas && bottom in bottoms.schemas && bottom.bits <= top.bits
      && forall t, b :: t in tops.schemas && b in bottoms.schemas && b.bits <= t.bits ==>
        Span(t, b) <= Span(top, bottom)
  {
    if |tops.schemas| == 0 || |bottoms.schemas| == 0 {
      return Err;
    }
    var best: Option<(Schema, Schema)> := None;
    var longest := -1;
    for i := 0 to |tops.schemas|
      invariant i > 0 ==> tops.schemas[0].size == bottoms.schemas[0].size
      invariant BestSoFar(best, longest, tops.schemas, bottoms.schemas, i, 0)
    {
      var top := tops.schemas[i];
      for j := 0 to |bottoms.schemas|
        invariant i > 0 || j > 0 ==> tops.schemas[0].size == bottoms.schemas[0].size
        invariant BestSoFar(best, longest, tops.schemas, bottoms.schemas, i, j)
      {
        var bottom := bottoms.schemas[j];
        var above := IsSupersetOf(top, bottom);
        SizeAt(tops.schemas, i);
        SizeAt(bottoms.schemas, j);
        if above.Err? {
          return Err;
        }
        BestStep(best, longest, tops.schemas, bottoms.schemas, i, j);
        if above.value && |top.bits| - |bottom.bits| + 1 > longest {
          best := Some((top, bottom));
          longest := |top.bits| - |bottom.bits| + 1;
        }
      }
    }
    BestEnd(best, longest, tops.schemas, bottoms.schemas);
    r := Ok(best);
  }

  lemma SizeAt(list: seq<Schema>, i: nat)
    requires IsAntichainList(list) && i < |list|
    ensures list[i].size == list[0].size
  {
    OneSize(list);
    assert list[i] in list && list[0] in list;
  }

  ghost predicate ListsHaveChain(tops: seq<Schema>, bottoms: seq<Schema>) {
    exists i, j :: 0 <= i < |tops| && 0 <= j < |bottoms| && bottoms[j].bits <= tops[i].bits
  }

  lemma ChainInFamilies(tops: seq<Schema>, bottoms: seq<Schema>)
    ensures HasChain(FamilyOf(tops), FamilyOf(bottoms)) <==> ListsHaveChain(tops, bottoms)
  {
    if t, b :| t in FamilyOf(tops) && b in FamilyOf(bottoms) && b <= t {
      var i :| 0 <= i < |tops| && tops[i].bits == t;
      var j :| 0 <= j < |bottoms| && bottoms[j].bits == b;
      assert bottoms[j].bits <= tops[i].bits;
    }
    if i, j :| 0 <= i < |tops| && 0 <= j < |bottoms| && bottoms[j].bits <= tops[i].bits {
      assert tops[i].bits in FamilyOf(tops) && bottoms[j].bits in FamilyOf(bottoms);
    }
  }

  /** The best chain among the first i top schemas, and the first j bottoms under the next top. */
  ghost predicate BestSoFar(best: Option<(Schema, Schema)>, longest: int, tops: seq<Schema>, bottoms: seq<Schema>,
                            i: int, j: int) {
    && longest >= -1
    && (best.Some? ==>
         && best.value.0 in tops && best.value.1 in bottoms && best.value.1.bits <= best.value.0.bits
         && longest == Span(best.value.0, best.value.1) + 1)
    && (best == None ==> longest == -1)
    && forall k, l ::
      0 <= k < |tops| && 0 <= l < |bottoms| && (k < i || (k == i && l < j)) && bottoms[l].bits <= tops[k].bits ==>
         best.Some? && Span(tops[k], bottoms[l]) + 1 <= longest
  }

  lemma BestStep(best: Option<(Schema, Schema)>, longest: int, tops: seq<Schema>, bottoms: seq<Schema>, i: nat, j: nat)
    requires BestSoFar(best, longest, tops, bottoms, i, j) && i < |tops| && j < |bottoms|
    ensures if bottoms[j].bits <= tops[i].bits && Span(tops[i], bottoms[j]) + 1 > longest
            then BestSoFar(Some((tops[i], bottoms[j])), Span(tops[i], bottoms[j]) + 1, tops, bottoms, i, j + 1)
            else BestSoFar(best, longest, tops, bottoms, i, j + 1)
  {
    if bottoms[j].bits <= tops[i].bits {
      SubsetIsNoLarger(bottoms[j].bits, tops[i].bits);
    }
  }

  lemma BestEnd(best: Option<(Schema, Schema)>, longest: int, tops: seq<Schema>, bottoms: seq<Schema>)
    requires BestSoFar(best, longest, tops, bottoms, |tops|, 0)
    ensures best == None <==> !HasChain(FamilyOf(tops), FamilyOf(bottoms))
    ensures best.Some? ==>
      forall t, b :: t in tops && b in bottoms && b.bits <= t.bits ==> Span(t, b) <= Span(best.value.0, best.value.1)
  {
    ChainInFamilies(tops, bottoms);
    if best.Some? {
      var i :| 0 <= i < |tops| && tops[i] == best.value.0;
      var j :| 0 <= j < |bottoms| && bottoms[j] == best.value.1;
      assert bottoms[j].bits <= tops[i].bits;
    }
  }

  /** The chain from min to max: the parameters of max join in descending order. */
  ghost function ChainAt(min: Edge, max: Edge, cut: nat): Edge {
    min + set j | j in max && j >= cut
  }

  /** The strictly growing list of all sets ChainAt(min, max, c) with c >= cut. */
  ghost predicate IsChain(chain: seq<Schema>, min: Schema, max: Schema, cut: nat) {
    && |chain| > 0
    && (forall k :: 0 <= k < |chain| ==> chain[k].size == max.size && OnChain(chain[k].bits, min, max))
    && (forall k, l :: 0 <= k < l < |chain| ==> chain[k].bits < chain[l].bits)
    && (forall c: nat :: cut <= c ==> exists k :: 0 <= k < |chain| && chain[k].bits == ChainAt(min.bits, max.bits, c))
    && chain[|chain| - 1].bits == ChainAt(min.bits, max.bits, cut)
  }

  ghost predicate OnChain(s: Edge, min: Schema, max: Schema) {
    exists c: nat :: s == ChainAt(min.bits, max.bits, c)
  }

  lemma ChainStart(min: Schema, max: Schema)
    requires min.size == max.size
    ensures IsChain([min], min, max, max.size)
  {
    forall c: nat | max.size <= c
      ensures [min][0].bits == ChainAt(min.bits, max.bits, c)
    {
      assert forall j :: j in max.bits ==> j < c;
    }
    assert min.bits == ChainAt(min.bits, max.bits, max.size);
    assert OnChain([min][0].bits, min, max);
  }

  lemma ChainStep(chain: seq<Schema>, min: Schema, max: Schema, i: nat, next: Schema)
    requires IsChain(chain, min, max, i + 1) && next.size == max.size
    requires next.bits == ChainAt(min.bits, max.bits, i + 1) + {i}
    ensures i !in min.bits && i in max.bits ==>
      IsChain(chain + [next], min, max, i) && next.bits == ChainAt(min.bits, max.bits, i)
    ensures i in min.bits || i !in max.bits ==>
      IsChain(chain, min, max, i) && ChainAt(min.bits, max.bits, i) == ChainAt(min.bits, max.bits, i + 1)
  {
    if i !in min.bits && i in max.bits {
      ChainGrows(chain, min, max, i, next);
    } else {
      assert ChainAt(min.bits, max.bits, i) == ChainAt(min.bits, max.bits, i + 1);
    }
  }

  lemma ChainGrows(chain: seq<Schema>, min: Schema, max: Schema, i: nat, next: Schema)
    requires IsChain(chain, min, max, i + 1) && next.size == max.size
    requires next.bits == ChainAt(min.bits, max.bits, i + 1) + {i} && i !in min.bits && i in max.bits
    ensures IsChain(chain + [next], min, max, i) && next.bits == ChainAt(min.bits, max.bits, i)
  {
    var here, last := ChainAt(min.bits, max.bits, i), ChainAt(min.bits, max.bits, i + 1);
    assert next.bits == here && i !in last;
    var longer := chain + [next];
    forall c: nat | i <= c
      ensures exists k :: 0 <= k < |longer| && longer[k].bits == ChainAt(min.bits, max.bits, c)
    {
      if c == i {
        assert longer[|chain|].bits == here;
      } else {
        var k :| 0 <= k < |chain| && chain[k].bits == ChainAt(min.bits, max.bits, c);
        assert longer[k].bits == ChainAt(min.bits, max.bits, c);
      }
    }
    assert OnChain(next.bits, min, max);
    assert last < next.bits;
    LongerStillGrows(chain, next);
  }

  lemma LongerStillGrows(chain: seq<Schema>, next: Schema)
    requires |chain| > 0 && chain[|chain| - 1].bits < next.bits
    requires forall k, l :: 0 <= k < l < |chain| ==> chain[k].bits < chain[l].bits
    ensures var longer := chain + [next]; forall k, l :: 0 <= k < l < |longer| ==> longer[k].bits < longer[l].bits
  {
    var longer := chain + [next];
    forall k, l | 0 <= k < l < |longer|
      ensures longer[k].bits < longer[l].bits
    {
      if l == |chain| && k < |chain| - 1 {
        assert chain[k].bits < chain[|chain| - 1].bits;
      }
    }
  }

  method BuildChain(min: Schema, max: Schema) returns (chain: seq<Schema>)
    requires min.size == max.size && min.bits <= max.bits
    ensures IsChain(chain, min, max, 0) && chain[|chain| - 1] == max
  {
    chain := [min];
    var now := new MutableSchema.From(min);
    ChainStart(min, max);
    for i := max.size downto 0
      invariant now.Valid() && now.size == max.size && now.bits == ChainAt(min.bits, max.bits, i)
      invariant IsChain(chain, min, max, i)
    {
      ChainStep(chain, min, max, i, Schema(now.bits + {i}, max.size));
      if i !in min.bits && i in max.bits {
        now.Set(i, true);
        chain := chain + [now.View()];
      }
    }
    assert ChainAt(min.bits, max.bits, 0) == max.bits;
  }

  /** Masking, padding, testing and recording one schema of a failing test. */
  method CheckSchema(resolver: FaultResolver, s: Schema, test: Comb) returns (healthy: bool)
    requires resolver.Configured() && resolver.Valid()
    requires s.size == |test| == resolver.size && Binary(test)
    modifies resolver`healthyCombs, resolver`faultyCombs, resolver`checks, resolver.checker
    ensures resolver.Valid()
    ensures healthy <==> !Oracle(resolver.checker.mfs, test).Fails(s.bits)
    ensures resolver.Hist() == old(resolver.Hist()).Record(Mask(test, s.bits), healthy)
    ensures resolver.checks == old(resolver.checks) + [Mask(test, s.bits)]
    ensures resolver.RunLog().Follows(old(resolver.RunLog()), resolver.safeValues.value, {test})
  {
    var comb := GetComb(s, test);
    healthy := resolver.CheckAgainst(comb, test);
  }

  /** One check more in a run that began with the given log. */
  method CheckNext(resolver: FaultResolver, s: Schema, test: Comb, ghost log: Log) returns (healthy: bool)
    requires resolver.Configured() && resolver.Valid()
    requires s.size == |test| == resolver.size && Binary(test)
    requires resolver.RunLog().Follows(log, resolver.safeValues.value, {test})
    modifies resolver`healthyCombs, resolver`faultyCombs, resolver`checks, resolver.checker
    ensures resolver.Valid()
    ensures healthy <==> !Oracle(resolver.checker.mfs, test).Fails(s.bits)
    ensures resolver.Hist().Extends(old(resolver.Hist())) && |resolver.checks| == |old(resolver.checks)| + 1
    ensures !healthy ==> SeenFaulty(resolver.Hist(), test, s.bits)
    ensures resolver.RunLog().Follows(log, resolver.safeValues.value, {test})
  {
    ghost var mid := resolver.RunLog();
    healthy := CheckSchema(resolver, s, test);
    resolver.RunLog().FollowsFurther(mid, log, resolver.safeValues.value, {test});
  }

  /** Recorded as healthy, or as faulty, for this test. */
  ghost predicate SeenHealthy(h: History, test: Comb, s: Edge) {
    Mask(test, s) in h.healthy
  }

  ghost predicate SeenFaulty(h: History, test: Comb, s: Edge) {
    Mask(test, s) in h.faulty
  }

  /** s is the smallest failing set of the chain from min to max. */
  ghost predicate FirstFailure(o: Oracle, min: Schema, max: Schema, s: Edge) {
    && OnChain(s, min, max) && min.bits <= s <= max.bits && o.Fails(s)
    && forall c: nat :: ChainAt(min.bits, max.bits, c) < s ==> !o.Fails(ChainAt(min.bits, max.bits, c))
  }

  /** None when max passes; otherwise the first failing schema of the chain, found by bisection. */
  method BinarySearch(resolver: FaultResolver, max: Schema, min: Schema, test: Comb) returns (r: Result<Option<Schema>>)
    requires resolver.Configured() && resolver.Valid()
    requires max.size == |test| == resolver.size && Binary(test)
    modifies resolver`healthyCombs, resolver`faultyCombs, resolver`checks, resolver.checker
    ensures resolver.Valid() && resolver.Hist().Extends(old(resolver.Hist()))
    ensures resolver.RunLog().Follows(old(resolver.RunLog()), resolver.safeValues.value, {test})
    ensures r.Err? <==> max.size != min.size || !(min.bits <= max.bits)
    ensures r.Ok? ==>
      var o := Oracle(resolver.checker.mfs, test);
      if r.value == None then !o.Fails(max.bits) && SeenHealthy(resolver.Hist(), test, max.bits)
      else
        var s := r.value.value;
        s.size == max.size && FirstFailure(o, min, max, s.bits) && SeenFaulty(resolver.Hist(), test, s.bits)
  {
    if max.size != min.size {
      return Err;
    }
    var above := IsSupersetOf(max, min);
    if !above.value {
      return Err;
    }
    var healthy := CheckSchema(resolver, max, test);
    if healthy {
      return Ok(None);
    }
    var chain := BuildChain(min, max);
    ghost var mid := resolver.RunLog();
    var result := Bisect(resolver, chain, test);
    resolver.RunLog().FollowsFurther(mid, old(resolver.RunLog()), resolver.safeValues.value, {test});
    FirstOnChain(Oracle(resolver.checker.mfs, test), chain, min, max, result);
    r := Ok(Some(chain[result]));
  }

  ghost predicate Growing(chain: seq<Schema>) {
    forall k, l :: 0 <= k < l < |chain| ==> chain[k].bits < chain[l].bits
  }

  lemma FirstOnChain(o: Oracle, chain: seq<Schema>, min: Schema, max: Schema, result: nat)
    requires min.size == max.size && min.bits <= max.bits
    requires IsChain(chain, min, max, 0) && result < |chain|
    requires o.Fails(chain[result].bits) && forall k :: 0 <= k < result ==> !o.Fails(chain[k].bits)
    ensures FirstFailure(o, min, max, chain[result].bits)
  {
    var s := chain[result].bits;
    assert OnChain(s, min, max);
    forall c: nat | ChainAt(min.bits, max.bits, c) < s
      ensures !o.Fails(ChainAt(min.bits, max.bits, c))
    {
      var k :| 0 <= k < |chain| && chain[k].bits == ChainAt(min.bits, max.bits, c);
      assert k < result;
    }
  }

  ghost function Pow2(n: nat): nat {
    if n == 0 then 1 else 2 * Pow2(n - 1)
  }

  /** After n checks of a list, `left` schemas are left to choose from: each check halves them. */
  ghost predicate Halved(n: int, left: int, all: nat) {
    && n >= 0 && (left > 0 ==> Pow2(n) * left <= all)
    && (n > 0 ==> Pow2(n - 1) <= all)
  }

  lemma HalvedAgain(n: int, left: int, all: nat, less: int)
    requires Halved(n, left, all) && left > 0 && 0 <= 2 * less <= left
    ensures Halved(n + 1, less, all)
  {
    var p := Pow2(n);
    assert p <= p * left;
    assert p * (2 * less) <= p * left;
    assert Pow2(n + 1) * less == p * (2 * less);
  }

  /** What is left on either side of the middle. */
  lemma HalvedAround(n: int, left: int, right: int, mid: int, all: nat)
    requires Halved(n, right - left + 1, all) && left <= right && mid == left + (right - left) / 2
    ensures Halved(n + 1, mid - 1 - left + 1, all) && Halved(n + 1, right - (mid + 1) + 1, all)
  {
    HalvedAgain(n, right - left + 1, all, mid - left);
    HalvedAgain(n, right - left + 1, all, right - mid);
  }

  /** All schemas before left pass, and the first one after right, if it is not the end, fails. */
  ghost predicate Searched(o: Oracle, chain: seq<Schema>, left: int, right: int, result: int) {
    && 0 <= left <= right + 1 <= |chain|
    && (forall k :: 0 <= k < left ==> !o.Fails(chain[k].bits))
    && (result == -1 ==> right == |chain| - 1)
    && (result != -1 ==> result == right + 1 < |chain| && o.Fails(chain[result].bits))
  }

  lemma SearchStep(o: Oracle, chain: seq<Schema>, left: int, right: int, result: int, mid: int)
    requires Growing(chain) && Searched(o, chain, left, right, result) && left <= mid <= right
    ensures if o.Fails(chain[mid].bits) then Searched(o, chain, left, mid - 1, mid)
            else Searched(o, chain, mid + 1, right, result)
  {
    if !o.Fails(chain[mid].bits) {
      forall k | 0 <= k < mid
        ensures !o.Fails(chain[k].bits)
      {
        o.Monotone(chain[k].bits, chain[mid].bits);
      }
    }
  }

  /** The state of the search: what is known of the chain, and how many checks it took. */
  ghost predicate Bisecting(resolver: FaultResolver, chain: seq<Schema>, test: Comb, left: int, right: int,
                            result: int, log: Log, hist: History)
    reads resolver, resolver.checker
  {
    && resolver.Configured() && resolver.Valid() && resolver.Hist().Extends(hist)
    && resolver.RunLog().Follows(log, resolver.safeValues.value, {test})
    && Searched(Oracle(resolver.checker.mfs, test), chain, left, right, result)
    && Halved(|resolver.checks| - |log.checks|, right - left + 1, |chain|)
    && (result != -1 ==> SeenFaulty(resolver.Hist(), test, chain[result].bits))
  }

  /** The loop of the binary search: the last schema of the chain is known to fail. */
  method Bisect(resolver: FaultResolver, chain: seq<Schema>, test: Comb) returns (result: int)
    requires resolver.Configured() && resolver.Valid()
    requires |test| == resolver.size && Binary(test)
    requires |chain| > 0 && Growing(chain) && forall k :: 0 <= k < |chain| ==> chain[k].size == resolver.size
    requires Oracle(resolver.checker.mfs, test).Fails(chain[|chain| - 1].bits)
    modifies resolver`healthyCombs, resolver`faultyCombs, resolver`checks, resolver.checker
    ensures resolver.Valid() && resolver.Hist().Extends(old(resolver.Hist()))
    ensures resolver.RunLog().Follows(old(resolver.RunLog()), resolver.safeValues.value, {test})
    ensures var n := |resolver.checks| - |old(resolver.checks)|; n > 0 ==> Pow2(n - 1) <= |chain|
    ensures 0 <= result < |chain|
    ensures var o := Oracle(resolver.checker.mfs, test);
            o.Fails(chain[result].bits) && forall k :: 0 <= k < result ==> !o.Fails(chain[k].bits)
    ensures SeenFaulty(resolver.Hist(), test, chain[result].bits)
  {
    ghost var log, hist := resolver.RunLog(), resolver.Hist();
    var left, right := 0, |chain| - 1;
    result := -1;
    while left <= right
      invariant Bisecting(resolver, chain, test, left, right, result, log, hist)
      decreases right - left
    {
      left, right, result := Halve(resolver, chain, test, left, right, result, log, hist);
    }
  }

  /** The middle of what is left of the chain is checked. */
  method Halve(resolver: FaultResolver, chain: seq<Schema>, test: Comb, left0: int, right0: int, result0: int,
               ghost log: Log, ghost hist: History) returns (left: int, right: int, result: int)
    requires resolver.Configured() && |test| == resolver.size && Binary(test)
    requires Growing(chain) && forall k :: 0 <= k < |chain| ==> chain[k].size == resolver.size
    requires Bisecting(resolver, chain, test, left0, right0, result0, log, hist) && left0 <= right0
    modifies resolver`healthyCombs, resolver`faultyCombs, resolver`checks, resolver.checker
    ensures Bisecting(resolver, chain, test, left, right, result, log, hist) && right - left < right0 - left0
  {
    left, right, result := left0, right0, result0;
    var mid := left + (right - left) / 2;
    ghost var n := |resolver.checks| - |log.checks|;
    HalvedAround(n, left, right, mid, |chain|);
    SearchStep(Oracle(resolver.checker.mfs, test), chain, left, right, result, mid);
    var healthy := CheckNext(resolver, chain[mid], test, log);
    assert |resolver.checks| - |log.checks| == n + 1;
    if healthy {
      left := mid + 1;
    } else {
      result := mid;
      right := mid - 1;
    }
  }

  /** The two borders kept for one failing test, with the recorded verdicts behind them. */
  ghost predicate Working(resolver: FaultResolver, test: Comb, universe: Schema, cMinF: MonotoneSchemaSet,
                          cMaxP: MonotoneSchemaSet)
    reads resolver, cMinF, cMaxP
  {
    && resolver.Configured() && resolver.Valid()
    && |test| == resolver.size == universe.size && Binary(test)
    && cMinF != cMaxP && cMinF.isMinimal && !cMaxP.isMinimal
    && cMinF.Valid() && cMaxP.Valid()
    && SameSize(cMinF.schemas, universe.size) && SameSize(cMaxP.schemas, universe.size)
    && Classified(Oracle(resolver.checker.mfs, test), universe.bits, cMinF.Members(), cMaxP.Members())
    && Traced(resolver.Hist(), test, cMinF.Members(), cMaxP.Members())
  }

  /** Apart from the full and the empty schema, everything on the borders was tested. */
  ghost predicate Traced(h: History, test: Comb, minF: Family, maxP: Family) {
    && (forall x :: x in minF ==> x == Indices(|test|) || SeenFaulty(h, test, x))
    && (forall x :: x in maxP ==> x == {} || SeenHealthy(h, test, x))
  }

  lemma TracedLater(h: History, later: History, test: Comb, minF: Family, maxP: Family)
    requires Traced(h, test, minF, maxP) && later.Extends(h)
    ensures Traced(later, test, minF, maxP)
  {
  }

  /** A longest chain of pending schemas, or None when nothing is pending; no exception can be thrown. */
  method FindChain(universe: Schema, cMinF: MonotoneSchemaSet, cMaxP: MonotoneSchemaSet, ghost o: Oracle)
    returns (r: Option<(Schema, Schema)>)
    requires cMinF.Valid() && cMaxP.Valid()
    requires SameSize(cMinF.schemas, universe.size) && SameSize(cMaxP.schemas, universe.size)
    requires Classified(o, universe.bits, cMinF.Members(), cMaxP.Members()) && o.Faulty(universe.bits)
    ensures ChainFound(universe, cMinF.Members(), cMaxP.Members(), r)
  {
    var bottoms := FindBottoms(universe, cMaxP);
    var tops := FindTops(universe, cMinF);
    assert tops.schemas[0] in tops.schemas && bottoms.schemas[0] in bottoms.schemas;
    var longest := GetLongestChain(tops, bottoms);
    NoChainNothingPending(universe.bits, cMinF.Members(), cMaxP.Members());
    r := longest.value;
    if r.Some? {
      ChainIsPending(universe, cMinF.Members(), cMaxP.Members(), tops.schemas, bottoms.schemas, r.value.0, r.value.1);
    }
  }

  lemma ChainIsPending(universe: Schema, minF: Family, maxP: Family, tops: seq<Schema>, bottoms: seq<Schema>,
                       max: Schema, min: Schema)
    requires forall x :: x in minF ==> x <= universe.bits
    requires FamilyOf(tops) == Tops(minF, universe.bits) && FamilyOf(bottoms) == Bottoms(maxP, universe.bits)
    requires max in tops && min in bottoms && min.bits <= max.bits
    ensures max.bits <= universe.bits
    ensures forall s :: min.bits <= s <= max.bits ==> s in Pending(universe.bits, minF, maxP)
  {
    assert max.bits in FamilyOf(tops) && min.bits in FamilyOf(bottoms);
    forall s | min.bits <= s <= max.bits
      ensures s in Pending(universe.bits, minF, maxP)
    {
      BetweenIsPending(universe.bits, minF, maxP, min.bits, s, max.bits);
    }
    assert max.bits in Pending(universe.bits, minF, maxP);
  }

  /** The complements of healthy schemas are fit for getMHS: there are some, and none is empty. */
  lemma HealthySide(list: seq<Schema>, universe: Schema)
    requires SameSize(list, universe.size) && FamilyOf(list) != {}
    requires forall x :: x in FamilyOf(list) ==> x <= universe.bits && x != universe.bits
    ensures FamilyOf(ComplementList(list, universe)) == Complements(FamilyOf(list), universe.bits)
    ensures ComplementList(list, universe) != [] && ComplementList(list, universe)[0].size == universe.size
    ensures {} !in FamilyOf(ComplementList(list, universe))
    ensures Bottoms(FamilyOf(list), universe.bits) != {}
  {
    var c := ComplementList(list, universe);
    ComplementListFamily(list, universe);
    ComplementListAt(list, universe);
    NoEmptyComplement(FamilyOf(list), universe.bits);
    EmptyFamily(c);
    TransversalAccepted(FamilyOf(c));
  }

  /** Faulty schemas are fit for getMHS, and their minimal hitting sets stay inside the universe. */
  lemma FaultySide(list: seq<Schema>, universe: Schema)
    requires SameSize(list, universe.size) && FamilyOf(list) != {}
    requires forall x :: x in FamilyOf(list) ==> x <= universe.bits && x != {}
    ensures list != [] && list[0].size == universe.size
    ensures MinimalHittingSets(FamilyOf(list)) != {}
    ensures forall x :: x in MinimalHittingSets(FamilyOf(list)) ==> x <= universe.bits
  {
    assert list != [] && list[0].size == universe.size by {
      EmptyFamily(list);
      assert list[0] in list;
    }
    TransversalAccepted(FamilyOf(list));
    TransversalWithin(FamilyOf(list), universe.bits);
  }

  lemma TopsOfList(list: seq<Schema>, universe: Schema)
    requires FamilyOf(list) != {} && Within(list, universe)
    ensures ComplementList(list, universe) != [] && SameSize(ComplementList(list, universe), universe.size)
    ensures FamilyOf(ComplementList(list, universe)) == Complements(FamilyOf(list), universe.bits)
  {
    EmptyFamily(list);
    ComplementListFamily(list, universe);
    ComplementListAt(list, universe);
  }

  method FindBottoms(universe: Schema, cMaxP: MonotoneSchemaSet) returns (bottoms: MonotoneSchemaSet)
    requires cMaxP.Valid() && SameSize(cMaxP.schemas, universe.size)
    requires cMaxP.Members() != {}
    requires forall x :: x in cMaxP.Members() ==> x <= universe.bits && x != universe.bits
    ensures bottoms.Valid() && SameSize(bottoms.schemas, universe.size) && bottoms.schemas != []
    ensures bottoms.Members() == Bottoms(cMaxP.Members(), universe.bits)
  {
    MembersWithin(cMaxP.schemas, universe);
    var complements := cMaxP.ComplementIn(universe);
    HealthySide(cMaxP.schemas, universe);
    var mhs := GetMhs(complements.value);
    bottoms := mhs.value;
    EmptyFamily(bottoms.schemas);
  }

  method FindTops(universe: Schema, cMinF: MonotoneSchemaSet) returns (tops: MonotoneSchemaSet)
    requires cMinF.Valid() && SameSize(cMinF.schemas, universe.size)
    requires cMinF.Members() != {}
    requires forall x :: x in cMinF.Members() ==> x <= universe.bits && x != {}
    ensures tops.Valid() && SameSize(tops.schemas, universe.size) && tops.schemas != []
    ensures tops.Members() == Tops(cMinF.Members(), universe.bits)
  {
    FaultySide(cMinF.schemas, universe);
    var mhs := GetMhs(cMinF);
    MembersWithin(mhs.value.schemas, universe);
    TopsOfList(mhs.value.schemas, universe);
    var complements := mhs.value.ComplementIn(universe);
    tops := complements.value;
  }

  lemma MembersWithin(list: seq<Schema>, universe: Schema)
    requires SameSize(list, universe.size)
    requires forall x :: x in FamilyOf(list) ==> x <= universe.bits
    ensures Within(list, universe)
  {
    forall s | s in list
      ensures s.bits <= universe.bits
    {
      assert s.bits in FamilyOf(list);
    }
  }

  lemma NoEmptyComplement(f: Family, universe: Edge)
    requires f != {} && forall x :: x in f ==> x <= universe && x != universe
    ensures Complements(f, universe) != {} && {} !in Complements(f, universe)
  {
    var x :| x in f;
    assert universe - x in Complements(f, universe);
    forall y | y in f
      ensures universe - y != {}
    {
      assert !(universe <= y);
      var v :| v in universe && v !in y;
      assert v in universe - y;
    }
  }

  /** Offers a whole list of schemas to a set. */
  method AddAll(into: MonotoneSchemaSet, list: seq<Schema>, n: nat)
    requires into.Valid() && SameSize(into.schemas, n) && SameSize(list, n)
    modifies into
    ensures into.Valid() && SameSize(into.schemas, n)
    ensures Merged(into.isMinimal, old(into.Members()), FamilyOf(list), into.Members())
  {
    ghost var before := into.Members();
    assert list[..0] == [];
    MergeStart(into.isMinimal, before);
    for k := 0 to |list|
      invariant into.Valid() && SameSize(into.schemas, n)
      invariant Merged(into.isMinimal, before, FamilyOf(list[..k]), into.Members())
    {
      MergeStep(into.isMinimal, before, FamilyOf(list[..k]), into.Members(), list[k].bits);
      assert list[k] in list;
      PrefixFamily(list, k);
      AddedIsExtremal(into.isMinimal, into.schemas, list[k]);
      var added := into.Add(list[k]);
    }
    assert list[..|list|] == list;
  }

  /** `now` holds only members of the two families and accounts for all of them. */
  ghost predicate Merged(isMinimal: bool, before: Family, extra: Family, now: Family) {
    && (forall x :: x in now ==> x in before || x in extra)
    && (forall x :: x in before || x in extra ==> Represented(isMinimal, x, now))
  }

  lemma MergeStart(isMinimal: bool, before: Family)
    ensures Merged(isMinimal, before, {}, before)
  {
  }

  lemma MergeStep(isMinimal: bool, before: Family, extra: Family, mid: Family, y: Edge)
    requires Merged(isMinimal, before, extra, mid)
    ensures Merged(isMinimal, before, extra + {y}, Extremal(isMinimal, mid + {y}))
  {
    forall x | x in before || x in extra + {y}
      ensures Represented(isMinimal, x, Extremal(isMinimal, mid + {y}))
    {
      ExtremalKeeps(isMinimal, mid, y, x);
    }
  }

  /** x still has a member below it in a minimal set, or above it in a maximal set. */
  ghost predicate Represented(isMinimal: bool, x: Edge, f: Family) {
    if isMinimal then ContainsMember(x, f) else InsideMember(x, f)
  }

  lemma ExtremalKeeps(isMinimal: bool, f: Family, y: Edge, x: Edge)
    requires Represented(isMinimal, x, f) || x == y
    ensures Represented(isMinimal, x, Extremal(isMinimal, f + {y}))
  {
    if isMinimal {
      AddFaulty(f, {}, y);
      if x == y {
        assert x in f + {y};
      } else {
        var e :| e in f && e <= x;
        assert e in f + {y};
        ContainsUp(e, x, MinimalMembers(f + {y}));
      }
    } else {
      AddHealthy({}, f, y);
      if x == y {
        assert x in f + {y};
      } else {
        var e :| e in f && x <= e;
        assert e in f + {y};
        InsideDown(x, e, MaximalMembers(f + {y}));
      }
    }
  }

  /**
   * Merging newly classified schemas keeps both borders classified; deciding a pending schema leaves fewer
   * pending ones.
   */
  lemma MergeProgress(o: Oracle, universe: Edge, minF: Family, maxP: Family, part: Edge, newF: Family, newP: Family,
                      minF': Family, maxP': Family, s: Edge)
    requires Classified(o, universe, minF, maxP)
    requires part <= universe
    requires forall x :: x in newF ==> x <= part && o.Faulty(x)
    requires forall x :: x in newP ==> x <= part && !o.Faulty(x)
    requires Merged(true, minF, newF, minF') && Merged(false, maxP, newP, maxP')
    requires s in Pending(universe, minF, maxP) && (ContainsMember(s, newF) || InsideMember(s, newP))
    ensures Classified(o, universe, minF', maxP')
    ensures |Pending(universe, minF', maxP')| < |Pending(universe, minF, maxP)|
  {
    var x :| x in minF;
    assert Represented(true, x, minF');
    var y :| y in maxP;
    assert Represented(false, y, maxP');
    assert Grown(minF, maxP, minF', maxP') by {
      forall x | x in minF
        ensures ContainsMember(x, minF')
      {
        assert Represented(true, x, minF');
      }
      forall x | x in maxP
        ensures InsideMember(x, maxP')
      {
        assert Represented(false, x, maxP');
      }
    }
    if ContainsMember(s, newF) {
      var e :| e in newF && e <= s;
      assert Represented(true, e, minF');
      ContainsUp(e, s, minF');
    } else {
      var e :| e in newP && s <= e;
      assert Represented(false, e, maxP');
      InsideDown(s, e, maxP');
    }
    PendingShrinks(universe, minF, maxP, minF', maxP', s);
  }

  lemma MergeTraced(h: History, test: Comb, minF: Family, maxP: Family, newF: Family, newP: Family, minF': Family,
                    maxP': Family)
    requires Traced(h, test, minF, maxP) && Traced(h, test, newF, newP)
    requires Merged(true, minF, newF, minF') && Merged(false, maxP, newP, maxP')
    ensures Traced(h, test, minF', maxP')
  {
  }

  /** A pending schema lies strictly inside the universe and is not empty. */
  lemma PendingIsProper(o: Oracle, universe: Edge, minF: Family, maxP: Family, s: Edge)
    requires Classified(o, universe, minF, maxP) && s in Pending(universe, minF, maxP)
    ensures s < universe && s != {} && |s| < |universe|
  {
    var x :| x in minF;
    var y :| y in maxP;
    assert {} <= y;
    assert s != universe;
    ProperSubsetIsSmaller(s, universe);
  }

  lemma SingletonDecided(o: Oracle, universe: Edge, minF: Family, maxP: Family)
    requires Classified(o, universe, minF, maxP) && |universe| == 1
    ensures Pending(universe, minF, maxP) == {}
  {
    forall s | s in Pending(universe, minF, maxP)
      ensures false
    {
      PendingIsProper(o, universe, minF, maxP, s);
    }
  }

  /** Finds both borders of the faulty schemas inside the universe, which is itself faulty. */
  method Identify(resolver: FaultResolver, universe: Schema, cMinF: MonotoneSchemaSet, cMaxP: MonotoneSchemaSet,
                  test: Comb)
    requires Working(resolver, test, universe, cMinF, cMaxP)
    requires Oracle(resolver.checker.mfs, test).Faulty(universe.bits)
    modifies cMinF, cMaxP, resolver`healthyCombs, resolver`faultyCombs, resolver`checks, resolver.checker
    ensures Working(resolver, test, universe, cMinF, cMaxP)
    ensures cMinF.Members() == MinimalFaulty(Oracle(resolver.checker.mfs, test), universe.bits)
    ensures cMaxP.Members() == MaximalHealthy(Oracle(resolver.checker.mfs, test), universe.bits)
    ensures resolver.Hist().Extends(old(resolver.Hist()))
    ensures resolver.RunLog().Follows(old(resolver.RunLog()), resolver.safeValues.value, {test})
    decreases |universe.bits|, 1
  {
    ghost var o := Oracle(resolver.checker.mfs, test);
    if |universe.bits| == 1 {
      SingletonDecided(o, universe.bits, cMinF.Members(), cMaxP.Members());
      BordersExact(o, universe.bits, cMinF, cMaxP);
      return;
    }
    var longestChain := FindChain(universe, cMinF, cMaxP, o);
    while longestChain.Some?
      invariant Working(resolver, test, universe, cMinF, cMaxP)
      invariant resolver.Hist().Extends(old(resolver.Hist()))
      invariant resolver.RunLog().Follows(old(resolver.RunLog()), resolver.safeValues.value, {test})
      invariant ChainFound(universe, cMinF.Members(), cMaxP.Members(), longestChain)
      decreases |Pending(universe.bits, cMinF.Members(), cMaxP.Members())|
    {
      var (max, min) := longestChain.value;
      ghost var before := resolver.RunLog();
      Eliminate(resolver, universe, cMinF, cMaxP, test, max, min);
      resolver.RunLog().FollowsFurther(before, old(resolver.RunLog()), resolver.safeValues.value, {test});
      longestChain := FindChain(universe, cMinF, cMaxP, o);
    }
    BordersExact(o, universe.bits, cMinF, cMaxP);
  }

  /** The result of the chain search: a whole chain of pending schemas, or none when nothing is pending. */
  ghost predicate ChainFound(universe: Schema, minF: Family, maxP: Family, r: Option<(Schema, Schema)>) {
    && (r == None <==> Pending(universe.bits, minF, maxP) == {})
    && (r.Some? ==> PendingChain(universe, minF, maxP, r.value.0, r.value.1))
  }

  ghost predicate PendingChain(universe: Schema, minF: Family, maxP: Family, max: Schema, min: Schema) {
    && max.size == min.size == universe.size && min.bits <= max.bits <= universe.bits
    && forall s :: min.bits <= s <= max.bits ==> s in Pending(universe.bits, minF, maxP)
  }

  lemma BordersExact(o: Oracle, universe: Edge, cMinF: MonotoneSchemaSet, cMaxP: MonotoneSchemaSet)
    requires cMinF.Valid() && cMaxP.Valid()
    requires Classified(o, universe, cMinF.Members(), cMaxP.Members())
    requires Pending(universe, cMinF.Members(), cMaxP.Members()) == {}
    ensures cMinF.Members() == MinimalFaulty(o, universe)
    ensures cMaxP.Members() == MaximalHealthy(o, universe)
  {
    AntichainFamily(cMinF.schemas);
    AntichainFamily(cMaxP.schemas);
    NothingPendingIsExact(o, universe, cMinF.Members(), cMaxP.Members());
  }

  /**
   * One round: the chain is searched, and either its top is healthy or a smallest faulty schema is explored
   * recursively.
   */
  method Eliminate(resolver: FaultResolver, universe: Schema, cMinF: MonotoneSchemaSet, cMaxP: MonotoneSchemaSet,
                   test: Comb, max: Schema, min: Schema)
    requires Working(resolver, test, universe, cMinF, cMaxP)
    requires PendingChain(universe, cMinF.Members(), cMaxP.Members(), max, min)
    modifies cMinF, cMaxP, resolver`healthyCombs, resolver`faultyCombs, resolver`checks, resolver.checker
    ensures Working(resolver, test, universe, cMinF, cMaxP)
    ensures resolver.Hist().Extends(old(resolver.Hist()))
    ensures resolver.RunLog().Follows(old(resolver.RunLog()), resolver.safeValues.value, {test})
    ensures |Pending(universe.bits, cMinF.Members(), cMaxP.Members())|
          < old(|Pending(universe.bits, cMinF.Members(), cMaxP.Members())|)
    decreases |universe.bits|, 0
  {
    ghost var o := Oracle(resolver.checker.mfs, test);
    ghost var minF, maxP := cMinF.Members(), cMaxP.Members();
    var found := BinarySearch(resolver, max, min, test);
    TracedLater(old(resolver.Hist()), resolver.Hist(), test, minF, maxP);
    if found.value == None {
      AddHealthyTop(resolver, universe, cMinF, cMaxP, test, max);
    } else {
      var minfault := found.value.value;
      PendingIsProper(o, universe.bits, minF, maxP, minfault.bits);
      ghost var mid := resolver.RunLog();
      ExploreBelow(resolver, universe, cMinF, cMaxP, minfault, test);
      resolver.RunLog().FollowsFurther(mid, old(resolver.RunLog()), resolver.safeValues.value, {test});
    }
  }

  /** A faulty schema was found among the pending ones: it is explored, and its borders are merged. */
  method ExploreBelow(resolver: FaultResolver, universe: Schema, cMinF: MonotoneSchemaSet, cMaxP: MonotoneSchemaSet,
                      minfault: Schema, test: Comb)
    requires Working(resolver, test, universe, cMinF, cMaxP) && minfault.size == universe.size
    requires minfault.bits in Pending(universe.bits, cMinF.Members(), cMaxP.Members())
    requires Oracle(resolver.checker.mfs, test).Faulty(minfault.bits)
    requires SeenFaulty(resolver.Hist(), test, minfault.bits)
    modifies cMinF, cMaxP, resolver`healthyCombs, resolver`faultyCombs, resolver`checks, resolver.checker
    ensures Working(resolver, test, universe, cMinF, cMaxP)
    ensures resolver.Hist().Extends(old(resolver.Hist()))
    ensures resolver.RunLog().Follows(old(resolver.RunLog()), resolver.safeValues.value, {test})
    ensures |Pending(universe.bits, cMinF.Members(), cMaxP.Members())|
          < old(|Pending(universe.bits, cMinF.Members(), cMaxP.Members())|)
    decreases |minfault.bits|, 3
  {
    ghost var before, minF, maxP := resolver.Hist(), cMinF.Members(), cMaxP.Members();
    var newF, newP := Explore(resolver, minfault, test);
    TracedLater(before, resolver.Hist(), test, minF, maxP);
    MergeBack(resolver, universe, cMinF, cMaxP, minfault, newF, newP, test);
  }

  /** The two borders found inside a faulty schema, as lists. */
  ghost predicate Explored(h: History, o: Oracle, part: Schema, newF: seq<Schema>, newP: seq<Schema>) {
    && SameSize(newF, part.size) && SameSize(newP, part.size)
    && Classified(o, part.bits, FamilyOf(newF), FamilyOf(newP))
    && Traced(h, o.test, FamilyOf(newF), FamilyOf(newP))
    && ContainsMember(part.bits, FamilyOf(newF))
  }

  /** The top of a chain turned out healthy: it joins the maximal healthy schemas. */
  method AddHealthyTop(resolver: FaultResolver, universe: Schema, cMinF: MonotoneSchemaSet, cMaxP: MonotoneSchemaSet,
                       test: Comb, max: Schema)
    requires Working(resolver, test, universe, cMinF, cMaxP) && max.size == universe.size
    requires max.bits in Pending(universe.bits, cMinF.Members(), cMaxP.Members())
    requires !Oracle(resolver.checker.mfs, test).Fails(max.bits) && SeenHealthy(resolver.Hist(), test, max.bits)
    modifies cMaxP
    ensures Working(resolver, test, universe, cMinF, cMaxP)
    ensures |Pending(universe.bits, cMinF.Members(), cMaxP.Members())|
          < old(|Pending(universe.bits, cMinF.Members(), cMaxP.Members())|)
  {
    ghost var o := Oracle(resolver.checker.mfs, test);
    HealthyRound(resolver.Hist(), o, universe.bits, cMinF.Members(), cMaxP.Members(), max.bits);
    OneSizeAgrees(cMaxP.schemas, max);
    AddedIsExtremal(false, cMaxP.schemas, max);
    var added := cMaxP.Add(max);
  }

  lemma OneSizeAgrees(list: seq<Schema>, x: Schema)
    requires SameSize(list, x.size)
    ensures SizesAgree(list, x)
  {
    if list != [] {
      assert list[0] in list;
    }
  }

  lemma HealthyRound(h: History, o: Oracle, universe: Edge, minF: Family, maxP: Family, max: Edge)
    requires Classified(o, universe, minF, maxP) && Traced(h, o.test, minF, maxP)
    requires max in Pending(universe, minF, maxP) && !o.Fails(max) && SeenHealthy(h, o.test, max)
    ensures var maxP' := MaximalMembers(maxP + {max});
            && Classified(o, universe, minF, maxP') && Traced(h, o.test, minF, maxP')
            && |Pending(universe, minF, maxP')| < |Pending(universe, minF, maxP)|
  {
    var maxP' := MaximalMembers(maxP + {max});
    MergeStart(true, minF);
    MergeStart(false, maxP);
    MergeStep(false, maxP, {}, maxP, max);
    assert {} + {max} == {max};
    MergeProgress(o, universe, minF, maxP, max, {}, {max}, minF, maxP', max);
    MergeTraced(h, o.test, minF, maxP, {}, {max}, minF, maxP');
  }

  /** The borders found inside a faulty schema join the borders of the universe. */
  method MergeBack(resolver: FaultResolver, universe: Schema, cMinF: MonotoneSchemaSet, cMaxP: MonotoneSchemaSet,
                   part: Schema, newF: seq<Schema>, newP: seq<Schema>, test: Comb)
    requires Working(resolver, test, universe, cMinF, cMaxP) && part.size == universe.size
    requires Explored(resolver.Hist(), Oracle(resolver.checker.mfs, test), part, newF, newP)
    requires part.bits in Pending(universe.bits, cMinF.Members(), cMaxP.Members())
    modifies cMinF, cMaxP
    ensures Working(resolver, test, universe, cMinF, cMaxP)
    ensures |Pending(universe.bits, cMinF.Members(), cMaxP.Members())|
          < old(|Pending(universe.bits, cMinF.Members(), cMaxP.Members())|)
  {
    ghost var o, minF, maxP := Oracle(resolver.checker.mfs, test), cMinF.Members(), cMaxP.Members();
    AddAll(cMinF, newF, universe.size);
    AddAll(cMaxP, newP, universe.size);
    MergeProgress(o, universe.bits, minF, maxP, part.bits, FamilyOf(newF), FamilyOf(newP), cMinF.Members(),
                  cMaxP.Members(), part.bits);
    MergeTraced(resolver.Hist(), test, minF, maxP, FamilyOf(newF), FamilyOf(newP), cMinF.Members(), cMaxP.Members());
  }

  /** The recursive call on a faulty schema, with fresh borders. */
  method Explore(resolver: FaultResolver, minfault: Schema, test: Comb) returns (newF: seq<Schema>, newP: seq<Schema>)
    requires resolver.Configured() && resolver.Valid()
    requires |test| == resolver.size == minfault.size && Binary(test)
    requires Oracle(resolver.checker.mfs, test).Faulty(minfault.bits)
    requires SeenFaulty(resolver.Hist(), test, minfault.bits)
    modifies resolver`healthyCombs, resolver`faultyCombs, resolver`checks, resolver.checker
    ensures resolver.Valid() && resolver.Hist().Extends(old(resolver.Hist()))
    ensures resolver.RunLog().Follows(old(resolver.RunLog()), resolver.safeValues.value, {test})
    ensures Explored(resolver.Hist(), Oracle(resolver.checker.mfs, test), minfault, newF, newP)
    decreases |minfault.bits|, 2
  {
    var cMinF, cMaxP := FreshBorders(resolver, minfault, test);
    Identify(resolver, minfault, cMinF, cMaxP, test);
    BorderBelow(Oracle(resolver.checker.mfs, test), minfault.bits, minfault.bits);
    newF, newP := cMinF.schemas, cMaxP.schemas;
  }

  /** A faulty schema below and the empty schema above. */
  method FreshBorders(resolver: FaultResolver, part: Schema, test: Comb)
    returns (cMinF: MonotoneSchemaSet, cMaxP: MonotoneSchemaSet)
    requires resolver.Configured() && resolver.Valid()
    requires |test| == resolver.size == part.size && Binary(test)
    requires Oracle(resolver.checker.mfs, test).Faulty(part.bits) && SeenFaulty(resolver.Hist(), test, part.bits)
    ensures fresh(cMinF) && fresh(cMaxP) && Working(resolver, test, part, cMinF, cMaxP)
  {
    SingleMember(true, part);
    SingleMember(false, Empty(part.size));
    cMinF := OnlyMember(true, part);
    cMaxP := OnlyMember(false, Empty(part.size));
    StartDecided(resolver.Hist(), Oracle(resolver.checker.mfs, test), part.bits);
  }

  lemma StartDecided(h: History, o: Oracle, part: Edge)
    requires o.Faulty(part) && SeenFaulty(h, o.test, part)
    ensures Classified(o, part, {part}, {{}}) && Traced(h, o.test, {part}, {{}})
  {
  }

  /** A monotone set with one schema. */
  method OnlyMember(isMinimal: bool, s: Schema) returns (r: MonotoneSchemaSet)
    ensures fresh(r) && r.Valid() && r.isMinimal == isMinimal && r.schemas == [s]
  {
    r := new MonotoneSchemaSet(isMinimal);
    SingleMember(isMinimal, s);
    var added := r.Add(s);
  }

  lemma SingleMember(isMinimal: bool, s: Schema)
    ensures Added(isMinimal, [], s) == [s]
    ensures FamilyOf([s]) == {s.bits}
  {
    assert FamilyOf([s]) == {s.bits} by {
      assert s in [s];
    }
  }

  /** Every faulty schema contains a minimal one. */
  lemma {:induction false} BorderBelow(o: Oracle, universe: Edge, s: Edge)
    requires s <= universe && o.Faulty(s)
    ensures ContainsMember(s, MinimalFaulty(o, universe))
    decreases |s|
  {
    if u :| u < s && o.Faulty(u) {
      ProperSubsetIsSmaller(u, s);
      BorderBelow(o, universe, u);
      ContainsUp(u, s, MinimalFaulty(o, universe));
    } else {
      assert s in MinimalFaulty(o, universe);
    }
  }

  /** Every healthy schema lies inside a maximal one. */
  lemma {:induction false} BorderAbove(o: Oracle, universe: Edge, s: Edge)
    requires s <= universe && !o.Faulty(s)
    ensures InsideMember(s, MaximalHealthy(o, universe))
    decreases |universe - s|
  {
    if u :| s < u <= universe && !o.Faulty(u) {
      ProperSubsetIsSmaller(universe - u, universe - s);
      BorderAbove(o, universe, u);
      InsideDown(s, u, MaximalHealthy(o, universe));
    } else {
      assert s in MaximalHealthy(o, universe);
    }
  }

  /** Every schema of the test except the empty and the full one is decided by the recorded verdicts. */
  ghost predicate NothingLeftPending(h: History, test: Comb) {
    forall s :: s < Indices(|test|) && s != {} ==> !h.Pending(Mask(test, s))
  }

  lemma ExactBordersLeaveNothing(h: History, o: Oracle)
    requires Traced(h, o.test, MinimalFaulty(o, Indices(|o.test|)), MaximalHealthy(o, Indices(|o.test|)))
    ensures NothingLeftPending(h, o.test)
  {
    var universe := Indices(|o.test|);
    forall s | s < universe && s != {}
      ensures !h.Pending(Mask(o.test, s))
    {
      DecidedByHistory(h, o, s);
    }
  }

  lemma DecidedByHistory(h: History, o: Oracle, s: Edge)
    requires Traced(h, o.test, MinimalFaulty(o, Indices(|o.test|)), MaximalHealthy(o, Indices(|o.test|)))
    requires s < Indices(|o.test|) && s != {}
    ensures !h.Pending(Mask(o.test, s))
  {
    var universe := Indices(|o.test|);
    if o.Faulty(s) {
      BorderBelow(o, universe, s);
      var x :| x in MinimalFaulty(o, universe) && x <= s;
      assert x != universe;
      MaskMonotone(o.test, x, s);
      var k :| 0 <= k < |h.faulty| && h.faulty[k] == Mask(o.test, x);
      assert h.KnownFaulty(Mask(o.test, s));
    } else {
      BorderAbove(o, universe, s);
      var x :| x in MaximalHealthy(o, universe) && s <= x;
      assert x != {};
      MaskMonotone(o.test, s, x);
      var k :| 0 <= k < |h.healthy| && h.healthy[k] == Mask(o.test, x);
      assert h.KnownHealthy(Mask(o.test, s));
    }
  }

  lemma NothingLeftLater(h: History, later: History, test: Comb)
    requires NothingLeftPending(h, test) && later.Extends(h)
    ensures NothingLeftPending(later, test)
  {
    forall s | s < Indices(|test|) && s != {}
      ensures !later.Pending(Mask(test, s))
    {
      later.ExtensionKeepsKnowledge(h, Mask(test, s));
    }
  }

  ghost function Masks(test: Comb, f: Family): set<Comb> {
    set s | s in f :: Mask(test, s)
  }

  /** The combinations of the minimal failing schemas of each test. */
  ghost function Found(mfs: seq<Comb>, tests: seq<Comb>): set<Comb> {
    if tests == [] then {}
    else
      var last := tests[|tests| - 1];
      Found(mfs, tests[..|tests| - 1]) + Masks(last, MinimalFaulty(Oracle(mfs, last), Indices(|last|)))
  }

  /** Identified combinations are faulty, fix something, and were tested unless they are whole tests. */
  ghost predicate IdentifiedSound(resolver: FaultResolver)
    reads resolver
  {
    forall c :: c in resolver.identified ==>
      && |c| == resolver.size && Combs.Known(c) != {} && IsFaulty(resolver.checker.mfs, c)
      && (!Partial(c) || c in resolver.faultyCombs)
  }

  lemma FullMask(test: Comb)
    ensures Mask(test, Indices(|test|)) == test
  {
  }

  lemma KnownWithin(c: Comb)
    ensures Combs.Known(c) <= Indices(|c|)
    ensures !Partial(c) ==> Combs.Known(c) == Indices(|c|)
  {
    if !Partial(c) {
      forall i | 0 <= i < |c|
        ensures c[i] != UNKNOWN
      {
        assert c[i] in c;
      }
    }
  }

  /** A first list of faulty schemas of the test: the whole test, or an identified part of it. */
  ghost predicate Seeded(h: History, o: Oracle, list: seq<Schema>) {
    && SameSize(list, |o.test|) && FamilyOf(list) != {}
    && forall x :: x in FamilyOf(list) ==>
      x <= Indices(|o.test|) && o.Faulty(x) && (x == Indices(|o.test|) || SeenFaulty(h, o.test, x))
  }

  lemma SeedWithTest(h: History, o: Oracle)
    requires o.Faulty(Indices(|o.test|))
    ensures Seeded(h, o, [Full(|o.test|)])
  {
    SingleMember(true, Full(|o.test|));
  }

  lemma SeedWithPart(h: History, o: Oracle, c: Comb)
    requires o.Faulty(Indices(|o.test|))
    requires Covers(o.test, c) && Combs.Known(c) != {} && IsFaulty(o.mfs, c)
    requires !Partial(c) || c in h.faulty
    ensures Combs.Known(c) <= Indices(|c|)
    ensures Seeded(h, o, Added(true, [Full(|o.test|)], Schema(Combs.Known(c), |c|)))
  {
    SeedIsFaulty(h, o.mfs, o.test, c);
    var full, s := Full(|o.test|), Schema(Combs.Known(c), |c|);
    SeedKeepsMember(full, s);
    SeededFrom(h, o, Added(true, [full], s), full.bits, s.bits);
  }

  lemma SeededFrom(h: History, o: Oracle, list: seq<Schema>, full: Edge, part: Edge)
    requires SameSize(list, |o.test|) && FamilyOf(list) != {} && FamilyOf(list) <= {full, part}
    requires full == Indices(|o.test|) && o.Faulty(full)
    requires part <= full && o.Faulty(part) && (part == full || SeenFaulty(h, o.test, part))
    ensures Seeded(h, o, list)
  {
  }

  /** An identified combination that the test contains is a faulty schema of this test too. */
  method SeedFaulty(resolver: FaultResolver, cMinF: MonotoneSchemaSet, test: Comb)
    requires IdentifiedSound(resolver)
    requires |test| == resolver.size && Oracle(resolver.checker.mfs, test).Faulty(Indices(|test|))
    requires cMinF.Valid() && cMinF.isMinimal && cMinF.schemas == [Full(|test|)]
    modifies cMinF
    ensures cMinF.Valid() && Seeded(resolver.Hist(), Oracle(resolver.checker.mfs, test), cMinF.schemas)
  {
    SeedWithTest(resolver.Hist(), Oracle(resolver.checker.mfs, test));
    var rest := resolver.identified;
    while rest != {}
      invariant rest <= resolver.identified
      invariant cMinF.Valid() && cMinF.schemas == [Full(|test|)]
      decreases |rest|
    {
      var c :| c in rest;
      rest := rest - {c};
      var contained := Contains(test, c);
      if contained.value {
        var s := FromComb(c);
        SeedWithPart(resolver.Hist(), Oracle(resolver.checker.mfs, test), c);
        var added := cMinF.Add(s);
        return;
      }
    }
  }

  lemma SeedIsFaulty(h: History, mfs: seq<Comb>, test: Comb, c: Comb)
    requires Covers(test, c) && Combs.Known(c) != {} && IsFaulty(mfs, c)
    requires !Partial(c) || c in h.faulty
    ensures Combs.Known(c) <= Indices(|test|) && Oracle(mfs, test).Faulty(Combs.Known(c))
    ensures Combs.Known(c) == Indices(|test|) || SeenFaulty(h, test, Combs.Known(c))
  {
    CoveredIsMask(test, c);
    KnownWithin(c);
  }

  lemma SeedKeepsMember(full: Schema, s: Schema)
    requires s.bits <= full.bits && s.size == full.size
    ensures FamilyOf(Added(true, [full], s)) != {}
    ensures FamilyOf(Added(true, [full], s)) <= {full.bits, s.bits}
    ensures SameSize(Added(true, [full], s), full.size)
  {
    var list := Added(true, [full], s);
    KeptMembers(true, [full], s.bits);
    assert full in [full];
    EmptyFamily(list);
    assert s in list || full in list;
    forall x | x in list
      ensures x == full || x == s
    {
    }
  }

  /** Both borders of one failing test, from scratch. */
  method ResolveTest(resolver: FaultResolver, test: Comb) returns (minimal: seq<Schema>)
    requires resolver.Configured() && resolver.Valid() && IdentifiedSound(resolver)
    requires |test| == resolver.size > 0 && Binary(test) && IsFaulty(resolver.checker.mfs, test)
    modifies resolver`healthyCombs, resolver`faultyCombs, resolver`checks, resolver.checker
    ensures resolver.Valid() && resolver.Hist().Extends(old(resolver.Hist()))
    ensures resolver.RunLog().Follows(old(resolver.RunLog()), resolver.safeValues.value, {test})
    ensures SameSize(minimal, |test|)
    ensures FamilyOf(minimal) == MinimalFaulty(Oracle(resolver.checker.mfs, test), Indices(|test|))
    ensures forall x :: x in FamilyOf(minimal) ==> x == Indices(|test|) || SeenFaulty(resolver.Hist(), test, x)
    ensures NothingLeftPending(resolver.Hist(), test)
  {
    var cMinF, cMaxP := StartBorders(resolver, test);
    Identify(resolver, Full(|test|), cMinF, cMaxP, test);
    ExactBordersLeaveNothing(resolver.Hist(), Oracle(resolver.checker.mfs, test));
    minimal := cMinF.schemas;
  }

  method StartBorders(resolver: FaultResolver, test: Comb) returns (cMinF: MonotoneSchemaSet, cMaxP: MonotoneSchemaSet)
    requires resolver.Configured() && resolver.Valid() && IdentifiedSound(resolver)
    requires |test| == resolver.size > 0 && Binary(test) && IsFaulty(resolver.checker.mfs, test)
    ensures fresh(cMinF) && fresh(cMaxP)
    ensures Working(resolver, test, Full(|test|), cMinF, cMaxP)
    ensures Oracle(resolver.checker.mfs, test).Faulty(Indices(|test|))
  {
    FullMask(test);
    assert 0 in Indices(|test|);
    cMinF := OnlyMember(true, Full(|test|));
    cMaxP := OnlyMember(false, Empty(|test|));
    SeedFaulty(resolver, cMinF, test);
    SingleMember(false, Empty(|test|));
    StartClassified(resolver.Hist(), Oracle(resolver.checker.mfs, test), cMinF.schemas);
  }

  lemma StartClassified(h: History, o: Oracle, list: seq<Schema>)
    requires Seeded(h, o, list)
    ensures Classified(o, Indices(|o.test|), FamilyOf(list), {{}})
    ensures Traced(h, o.test, FamilyOf(list), {{}})
  {
  }

  lemma NewFindsAreSound(o: Oracle, h: History, x: Edge)
    requires x in MinimalFaulty(o, Indices(|o.test|)) && Binary(o.test)
    requires x == Indices(|o.test|) || SeenFaulty(h, o.test, x)
    ensures var c := Mask(o.test, x);
            |c| == |o.test| && Combs.Known(c) != {} && IsFaulty(o.mfs, c) && (!Partial(c) || c in h.faulty)
  {
    KnownOfMask(o.test, x);
    FullMask(o.test);
  }

  /** Adds the combinations of the minimal faulty schemas to the result set. */
  method Collect(resolver: FaultResolver, minimal: seq<Schema>, test: Comb)
    requires SameSize(minimal, |test|) && |test| == resolver.size
    modifies resolver`identified
    ensures resolver.identified == old(resolver.identified) + Masks(test, FamilyOf(minimal))
  {
    ghost var before := resolver.identified;
    assert minimal[..0] == [];
    for k := 0 to |minimal|
      invariant resolver.identified == before + Masks(test, FamilyOf(minimal[..k]))
    {
      assert minimal[k] in minimal;
      PrefixFamily(minimal, k);
      var comb := GetComb(minimal[k], test);
      resolver.identified := resolver.identified + {comb};
    }
    assert minimal[..|minimal|] == minimal;
  }

  /**
   * The whole run. Without safe values it fails; otherwise it identifies exactly the minimal failing
   * schemas of every failing test, and no schema of these tests is left pending.
   */
  method Conduct(resolver: FaultResolver) returns (r: Result<bool>)
    requires resolver.Valid() && IdentifiedSound(resolver) && resolver.size > 0
    requires resolver.safeValues.Some? ==> resolver.Configured()
    requires forall k :: 0 <= k < |resolver.tfail| ==> IsFaulty(resolver.checker.mfs, resolver.tfail[k])
    modifies resolver, resolver.checker
    ensures resolver.Valid() && IdentifiedSound(resolver) && resolver.conducted
    ensures resolver.Hist().Extends(old(resolver.Hist()))
    ensures old(resolver.conducted) || resolver.safeValues == None ==>
      resolver.identified == old(resolver.identified) && resolver.Hist() == old(resolver.Hist())
    ensures r == if old(resolver.conducted) then Ok(false) else if resolver.safeValues == None then Err else Ok(true)
    ensures r == Ok(true) ==>
      && resolver.identified == old(resolver.identified) + Found(resolver.checker.mfs, resolver.tfail)
      && AllDone(resolver.Hist(), resolver.tfail)
      && resolver.RunLog().Follows(old(resolver.RunLog()), resolver.safeValues.value, set f | f in resolver.tfail)
    ensures forall t :: t in resolver.checker.executed && t !in old(resolver.checker.executed) ==>
      |t| == resolver.size && -1 !in t
  {
    if resolver.conducted {
      return Ok(false);
    }
    resolver.conducted := true;
    if resolver.safeValues == None {
      return Err;
    }
    ghost var log := resolver.RunLog();
    ConductAll(resolver, set f | f in resolver.tfail);
    resolver.RunLog().FollowsWithWholeTests(log, resolver.safeValues.value, set f | f in resolver.tfail);
    r := Ok(true);
  }

  /** All failing tests, one after the other. */
  method ConductAll(resolver: FaultResolver, ghost all: set<Comb>)
    requires resolver.Configured() && resolver.Valid() && IdentifiedSound(resolver) && resolver.size > 0
    requires all == set f | f in resolver.tfail
    requires forall k :: 0 <= k < |resolver.tfail| ==> IsFaulty(resolver.checker.mfs, resolver.tfail[k])
    modifies resolver`identified, resolver`healthyCombs, resolver`faultyCombs, resolver`checks, resolver.checker
    ensures resolver.Valid() && IdentifiedSound(resolver) && resolver.Hist().Extends(old(resolver.Hist()))
    ensures resolver.identified == old(resolver.identified) + Found(resolver.checker.mfs, resolver.tfail)
    ensures AllDone(resolver.Hist(), resolver.tfail)
    ensures resolver.RunLog().Follows(old(resolver.RunLog()), resolver.safeValues.value, all)
  {
    ghost var mfs, tests, start, hist := resolver.checker.mfs, resolver.tfail, resolver.identified, resolver.Hist();
    ghost var log, safe := resolver.RunLog(), resolver.safeValues.value;
    for k := 0 to |resolver.tfail|
      invariant resolver.Valid() && IdentifiedSound(resolver) && resolver.Hist().Extends(hist)
      invariant resolver.identified == start + Found(mfs, tests[..k])
      invariant AllDone(resolver.Hist(), tests[..k])
      invariant resolver.RunLog().Follows(log, safe, all)
    {
      ghost var earlier := resolver.Hist();
      ConductNext(resolver, resolver.tfail[k], log, all);
      FoundStep(mfs, tests, k);
      AllDoneLater(earlier, resolver.Hist(), tests[..k], tests[k]);
    }
    assert tests[..|tests|] == tests;
  }

  lemma FoundStep(mfs: seq<Comb>, tests: seq<Comb>, k: nat)
    requires k < |tests|
    ensures tests[..k + 1] == tests[..k] + [tests[k]]
    ensures Found(mfs, tests[..k + 1])
         == Found(mfs, tests[..k]) + Masks(tests[k], MinimalFaulty(Oracle(mfs, tests[k]), Indices(|tests[k]|)))
  {
    assert tests[..k + 1][..k] == tests[..k];
  }

  ghost predicate AllDone(h: History, tests: seq<Comb>) {
    forall k :: 0 <= k < |tests| ==> NothingLeftPending(h, tests[k])
  }

  lemma AllDoneLater(h: History, later: History, tests: seq<Comb>, next: Comb)
    requires AllDone(h, tests) && later.Extends(h) && NothingLeftPending(later, next)
    ensures AllDone(later, tests + [next])
  {
    forall k | 0 <= k < |tests|
      ensures NothingLeftPending(later, tests[k])
    {
      NothingLeftLater(h, later, tests[k]);
    }
  }

  /** One failing test more in a run that began with the given log. */
  method ConductNext(resolver: FaultResolver, test: Comb, ghost log: Log, ghost tests: set<Comb>)
    requires resolver.Configured() && resolver.Valid() && IdentifiedSound(resolver)
    requires |test| == resolver.size > 0 && Binary(test) && IsFaulty(resolver.checker.mfs, test) && test in tests
    requires resolver.RunLog().Follows(log, resolver.safeValues.value, tests)
    modifies resolver`identified, resolver`healthyCombs, resolver`faultyCombs, resolver`checks, resolver.checker
    ensures resolver.Valid() && IdentifiedSound(resolver)
    ensures resolver.Hist().Extends(old(resolver.Hist()))
    ensures resolver.RunLog().Follows(log, resolver.safeValues.value, tests)
    ensures resolver.identified
         == old(resolver.identified) + Masks(test, MinimalFaulty(Oracle(resolver.checker.mfs, test), Indices(|test|)))
    ensures NothingLeftPending(resolver.Hist(), test)
  {
    ghost var mid := resolver.RunLog();
    ConductOne(resolver, test);
    resolver.RunLog().FollowsMore(mid, resolver.safeValues.value, {test}, tests);
    resolver.RunLog().FollowsFurther(mid, log, resolver.safeValues.value, tests);
  }

  /** One failing test of the run. */
  method ConductOne(resolver: FaultResolver, test: Comb)
    requires resolver.Configured() && resolver.Valid() && IdentifiedSound(resolver)
    requires |test| == resolver.size > 0 && Binary(test) && IsFaulty(resolver.checker.mfs, test)
    modifies resolver`identified, resolver`healthyCombs, resolver`faultyCombs, resolver`checks, resolver.checker
    ensures resolver.Valid() && IdentifiedSound(resolver)
    ensures resolver.Hist().Extends(old(resolver.Hist()))
    ensures resolver.RunLog().Follows(old(resolver.RunLog()), resolver.safeValues.value, {test})
    ensures resolver.identified
         == old(resolver.identified) + Masks(test, MinimalFaulty(Oracle(resolver.checker.mfs, test), Indices(|test|)))
    ensures NothingLeftPending(resolver.Hist(), test)
  {
    var minimal := ResolveTest(resolver, test);
    forall x | x in FamilyOf(minimal)
      ensures var c := Mask(test, x);
              && |c| == |test| && Combs.Known(c) != {} && IsFaulty(resolver.checker.mfs, c)
              && (!Partial(c) || c in resolver.faultyCombs)
    {
      NewFindsAreSound(Oracle(resolver.checker.mfs, test), resolver.Hist(), x);
    }
    Collect(resolver, minimal, test);
  }
}
