/** The test oracle and the state every fault resolver keeps: recorded verdicts and pending combinations. */
module FaultResolvers {
  import opened Results
  import opened Combs
  import opened SafeValues

  /** check() of a list of faulty combinations: the first one that decides, decides. */
  ghost function Verdict(mfs: seq<Comb>, test: Comb): Result<bool> {
    if mfs == [] then Ok(true)
    else if |mfs[0]| != |test| then Err
    else if Covers(test, mfs[0]) then Ok(false)
    else Verdict(mfs[1..], test)
  }

  ghost predicate SameLength(combs: seq<Comb>, n: nat) {
    forall k :: 0 <= k < |combs| ==> |combs[k]| == n
  }

  /** The verdict is true exactly when the test passes, that is, when it contains no faulty combination. */
  lemma {:induction false} VerdictIsPass(mfs: seq<Comb>, test: Comb)
    requires SameLength(mfs, |test|)
    ensures Verdict(mfs, test) == Ok(!IsFaulty(mfs, test))
  {
    if mfs != [] {
      VerdictIsPass(mfs[1..], test);
      assert forall k :: 0 < k < |mfs| ==> mfs[k] == mfs[1..][k - 1];
      assert Covers(test, mfs[0]) ==> IsFaulty(mfs, test);
      if IsFaulty(mfs[1..], test) {
        var k :| 0 <= k < |mfs[1..]| && Covers(test, mfs[1..][k]);
        assert Covers(test, mfs[k + 1]);
      }
    }
  }

  class Checker {
    const mfs: seq<Comb>
    var executed: set<Comb>
    var counter: nat

    constructor (mfs: seq<Comb>)
      ensures this.mfs == mfs && executed == {} && counter == 0
    {
      this.mfs := mfs;
      executed := {};
      counter := 0;
    }

    method Reset()
      modifies this
      ensures executed == {} && counter == 0
    {
      counter := 0;
      executed := {};
    }

    /** True when the test passes. */
    method Check(test: Comb) returns (r: Result<bool>)
      modifies this
      ensures counter == old(counter) + 1 && executed == old(executed) + {test}
      ensures r == Verdict(mfs, test)
    {
      counter := counter + 1;
      executed := executed + {test};
      assert mfs[0..] == mfs;
      for k := 0 to |mfs|
        invariant counter == old(counter) + 1 && executed == old(executed) + {test}
        invariant Verdict(mfs[k..], test) == Verdict(mfs, test)
      {
        assert mfs[k..][1..] == mfs[k + 1..];
        var contained := Contains(test, mfs[k]);
        if contained.Err? {
          return Err;
        }
        if contained.value {
          return Ok(false);
        }
      }
      r := Ok(true);
    }
  }

  /** The verdicts recorded so far. */
  datatype History = History(healthy: seq<Comb>, faulty: seq<Comb>) {
    ghost predicate Extends(earlier: History) {
      earlier.healthy <= healthy && earlier.faulty <= faulty
    }

    /** Every recorded verdict is right. */
    ghost predicate Sound(mfs: seq<Comb>) {
      && (forall k :: 0 <= k < |healthy| ==> !IsFaulty(mfs, healthy[k]))
      && (forall k :: 0 <= k < |faulty| ==> IsFaulty(mfs, faulty[k]))
    }

    ghost predicate KnownHealthy(c: Comb) {
      exists k :: 0 <= k < |healthy| && Covers(healthy[k], c)
    }

    ghost predicate KnownFaulty(c: Comb) {
      exists k :: 0 <= k < |faulty| && Covers(c, faulty[k])
    }

    ghost predicate Pending(c: Comb) {
      !KnownHealthy(c) && !KnownFaulty(c)
    }

    ghost function Record(c: Comb, passed: bool): History {
      if passed then History(healthy + [c], faulty) else History(healthy, faulty + [c])
    }

    lemma RecordKeepsSound(mfs: seq<Comb>, c: Comb)
      requires Sound(mfs)
      ensures Record(c, !IsFaulty(mfs, c)).Sound(mfs)
    {
    }

    /** A combination that is not pending has the verdict the history says, never both. */
    lemma NotPendingIsRight(mfs: seq<Comb>, c: Comb)
      requires Sound(mfs)
      ensures KnownHealthy(c) ==> !IsFaulty(mfs, c)
      ensures KnownFaulty(c) ==> IsFaulty(mfs, c)
    {
      if k :| 0 <= k < |healthy| && Covers(healthy[k], c) {
        if IsFaulty(mfs, c) {
          FaultyIsMonotone(mfs, healthy[k], c);
        }
      }
      if k :| 0 <= k < |faulty| && Covers(c, faulty[k]) {
        FaultyIsMonotone(mfs, c, faulty[k]);
      }
    }

    /** No recorded healthy combination contains a recorded faulty one. */
    lemma HealthyNeverContainsFaulty(mfs: seq<Comb>, i: nat, j: nat)
      requires Sound(mfs) && i < |healthy| && j < |faulty|
      ensures !Covers(healthy[i], faulty[j])
    {
      if Covers(healthy[i], faulty[j]) {
        FaultyIsMonotone(mfs, healthy[i], faulty[j]);
      }
    }

    lemma ExtensionKeepsKnowledge(earlier: History, c: Comb)
      requires Extends(earlier)
      ensures earlier.KnownHealthy(c) ==> KnownHealthy(c)
      ensures earlier.KnownFaulty(c) ==> KnownFaulty(c)
    {
      if k :| 0 <= k < |earlier.healthy| && Covers(earlier.healthy[k], c) {
        assert healthy[k] == earlier.healthy[k];
      }
      if k :| 0 <= k < |earlier.faulty| && Covers(c, earlier.faulty[k]) {
        assert faulty[k] == earlier.faulty[k];
      }
    }
  }

  /** The history after checking the given combinations one after the other. */
  ghost function HistoryOf(mfs: seq<Comb>, checks: seq<Comb>): History {
    if checks == [] then History([], [])
    else
      var last := checks[|checks| - 1];
      HistoryOf(mfs, checks[..|checks| - 1]).Record(last, !IsFaulty(mfs, last))
  }

  lemma HistoryGrows(mfs: seq<Comb>, checks: seq<Comb>, c: Comb)
    ensures HistoryOf(mfs, checks + [c]) == HistoryOf(mfs, checks).Record(c, !IsFaulty(mfs, c))
  {
    assert (checks + [c])[..|checks|] == checks;
  }

  /** Any run of checks: verdicts are right and consistent, and whatever is no longer pending is decided correctly. */
  lemma {:induction false} RunIsSound(mfs: seq<Comb>, checks: seq<Comb>)
    ensures var h := HistoryOf(mfs, checks);
            && h.Sound(mfs)
            && (forall i, j :: 0 <= i < |h.healthy| && 0 <= j < |h.faulty| ==> !Covers(h.healthy[i], h.faulty[j]))
            && (forall c :: !h.Pending(c) ==> (IsFaulty(mfs, c) <==> h.KnownFaulty(c)))
            && (forall c :: c in checks ==> !h.Pending(c))
  {
    var h := HistoryOf(mfs, checks);
    if checks != [] {
      var front, last := checks[..|checks| - 1], checks[|checks| - 1];
      RunIsSound(mfs, front);
      var earlier := HistoryOf(mfs, front);
      earlier.RecordKeepsSound(mfs, last);
      forall c | c in checks
        ensures !h.Pending(c)
      {
        if c in front {
          h.ExtensionKeepsKnowledge(earlier, c);
        } else {
          assert c == last;
          assert Covers(c, c);
          assert if IsFaulty(mfs, c) then h.faulty[|h.faulty| - 1] == c else h.healthy[|h.healthy| - 1] == c;
        }
      }
    }
    forall i, j | 0 <= i < |h.healthy| && 0 <= j < |h.faulty|
      ensures !Covers(h.healthy[i], h.faulty[j])
    {
      h.HealthyNeverContainsFaulty(mfs, i, j);
    }
    forall c | !h.Pending(c)
      ensures IsFaulty(mfs, c) <==> h.KnownFaulty(c)
    {
      h.NotPendingIsRight(mfs, c);
    }
  }

  /** t was executed for the combination c: padded with safe values, and otherwise against one of the tests. */
  ghost predicate ExecutedFor(t: Comb, c: Comb, safe: Comb, tests: set<Comb>) {
    exists f :: f in tests && PaddedAgainst(t, c, safe, f)
  }

  ghost predicate PaddedAgainst(t: Comb, c: Comb, safe: Comb, f: Comb) {
    && IsPadding(t, c, safe) && |f| == |t|
    && forall i :: 0 <= i < |t| && c[i] == UNKNOWN && safe[i] == UNKNOWN ==> t[i] == 1 - f[i]
  }

  /** The tests executed and the combinations checked. */
  datatype Log = Log(executed: set<Comb>, checks: seq<Comb>) {
    /** Every test executed since was padded for a combination checked since, and the other way round. */
    ghost predicate Follows(earlier: Log, safe: Comb, tests: set<Comb>) {
      && earlier.executed <= executed && earlier.checks <= checks
      && (forall t {:trigger CheckedSince(earlier, t, safe, tests)} ::
           t in executed && t !in earlier.executed ==> CheckedSince(earlier, t, safe, tests))
      && (forall k {:trigger WasExecuted(checks[k], safe, tests)} ::
           |earlier.checks| <= k < |checks| ==> WasExecuted(checks[k], safe, tests))
    }

    ghost predicate CheckedSince(earlier: Log, t: Comb, safe: Comb, tests: set<Comb>) {
      exists k :: |earlier.checks| <= k < |checks| && ExecutedFor(t, checks[k], safe, tests)
    }

    ghost predicate WasExecuted(c: Comb, safe: Comb, tests: set<Comb>) {
      exists t :: t in executed && ExecutedFor(t, c, safe, tests)
    }

    lemma FollowsStep(earlier: Log, t: Comb, c: Comb, safe: Comb, f: Comb)
      requires executed == earlier.executed + {t} && checks == earlier.checks + [c] && PaddedAgainst(t, c, safe, f)
      ensures Follows(earlier, safe, {f})
    {
      assert ExecutedFor(t, c, safe, {f});
      assert checks[|earlier.checks|] == c;
    }

    lemma FollowsFurther(mid: Log, earlier: Log, safe: Comb, tests: set<Comb>)
      requires Follows(mid, safe, tests) && mid.Follows(earlier, safe, tests)
      ensures Follows(earlier, safe, tests)
    {
      forall t | t in executed && t !in earlier.executed
        ensures CheckedSince(earlier, t, safe, tests)
      {
        if t in mid.executed {
          assert mid.CheckedSince(earlier, t, safe, tests);
          var k :| |earlier.checks| <= k < |mid.checks| && ExecutedFor(t, mid.checks[k], safe, tests);
          assert checks[k] == mid.checks[k];
        } else {
          assert CheckedSince(mid, t, safe, tests);
        }
      }
      forall k | |earlier.checks| <= k < |checks|
        ensures WasExecuted(checks[k], safe, tests)
      {
        if k < |mid.checks| {
          assert checks[k] == mid.checks[k] && mid.WasExecuted(mid.checks[k], safe, tests);
        }
      }
    }

    lemma FollowsMore(earlier: Log, safe: Comb, tests: set<Comb>, more: set<Comb>)
      requires Follows(earlier, safe, tests) && tests <= more
      ensures Follows(earlier, safe, more)
    {
      forall t, c | ExecutedFor(t, c, safe, tests)
        ensures ExecutedFor(t, c, safe, more)
      {
        var f :| f in tests && PaddedAgainst(t, c, safe, f);
        assert f in more;
      }
      forall t | t in executed && t !in earlier.executed
        ensures CheckedSince(earlier, t, safe, more)
      {
        assert CheckedSince(earlier, t, safe, tests);
      }
      forall k | |earlier.checks| <= k < |checks|
        ensures WasExecuted(checks[k], safe, more)
      {
        assert WasExecuted(checks[k], safe, tests);
      }
    }

    /** Only whole tests are executed. */
    lemma FollowsWithWholeTests(earlier: Log, safe: Comb, tests: set<Comb>)
      requires Follows(earlier, safe, tests)
      ensures forall t :: t in executed && t !in earlier.executed ==> |t| == |safe| && -1 !in t
    {
      forall t | t in executed && t !in earlier.executed
        ensures |t| == |safe| && -1 !in t
      {
        assert CheckedSince(earlier, t, safe, tests);
        var k :| |earlier.checks| <= k < |checks| && ExecutedFor(t, checks[k], safe, tests);
      }
    }
  }

  class FaultResolver {
    const checker: Checker
    const size: nat
    const tpass: seq<Comb>
    const tfail: seq<Comb>
    const safeValues: Option<Comb>
    var healthyCombs: seq<Comb>
    var faultyCombs: seq<Comb>
    var identified: set<Comb>
    var conducted: bool
    /** The combinations checked so far, in order. */
    ghost var checks: seq<Comb>

    ghost function Hist(): History
      reads this
    {
      History(healthyCombs, faultyCombs)
    }

    ghost function RunLog(): Log
      reads this, checker
    {
      Log(checker.executed, checks)
    }

    /** All combinations have one length, the tests are two-valued, and the safe values meet no faulty combination. */
    ghost predicate Configured() {
      && SameLength(checker.mfs, size)
      && (forall k :: 0 <= k < |tfail| ==> |tfail[k]| == size && Binary(tfail[k]))
      && safeValues.Some? && |safeValues.value| == size
      && (forall i :: 0 <= i < size ==> safeValues.value[i] >= UNKNOWN)
      && IsSafe(safeValues.value, checker.mfs)
    }

    /** The invariant of whole runs: the recorded verdicts are those of the checks so far, and right. */
    ghost predicate Valid()
      reads this
    {
      && SameLength(healthyCombs, size) && SameLength(faultyCombs, size)
      && Hist().Sound(checker.mfs) && Hist() == HistoryOf(checker.mfs, checks)
    }

    constructor (checker: Checker, size: nat, tpass: seq<Comb>, tfail: seq<Comb>, safeValues: Option<Comb>)
      ensures this.checker == checker && this.size == size && this.tpass == tpass && this.tfail == tfail
      ensures this.safeValues == safeValues
      ensures Valid() && Hist() == History([], []) && checks == [] && identified == {} && !conducted
    {
      this.checker, this.size, this.tpass, this.tfail := checker, size, tpass, tfail;
      this.safeValues := safeValues;
      healthyCombs, faultyCombs, checks := [], [], [];
      identified := {};
      conducted := false;
    }

    /** The recorded verdicts survive a reset. */
    method Reset()
      modifies this`conducted, this`identified, checker
      ensures !conducted && identified == {} && checker.counter == 0 && checker.executed == {}
    {
      conducted := false;
      checker.Reset();
      identified := {};
    }

    /** Tests a combination padded at random; the verdict is the one of the combination itself. */
    method CheckWithSafeValues(comb: Comb) returns (healthy: bool)
      requires Configured() && Valid()
      requires |comb| == size && forall i :: 0 <= i < size ==> comb[i] >= UNKNOWN
      modifies this`healthyCombs, this`faultyCombs, this`checks, checker
      ensures Valid()
      ensures healthy <==> !IsFaulty(checker.mfs, comb)
      ensures Hist() == old(Hist()).Record(comb, healthy) && checks == old(checks) + [comb]
      ensures checker.counter == old(checker.counter) + 1
      ensures exists t :: IsPadding(t, comb, safeValues.value) && checker.executed == old(checker.executed) + {t}
    {
      var padded := PadAtRandom(comb, safeValues.value);
      assert safeValues.value[..size] == safeValues.value;
      healthy := RunAndRecord(comb, padded.value);
    }

    /** Tests a combination padded against a failing test. */
    method CheckAgainst(comb: Comb, test: Comb) returns (healthy: bool)
      requires Configured() && Valid()
      requires |comb| == |test| == size && Binary(test)
      requires forall i :: 0 <= i < size ==> comb[i] >= UNKNOWN
      modifies this`healthyCombs, this`faultyCombs, this`checks, checker
      ensures Valid()
      ensures healthy <==> !IsFaulty(checker.mfs, comb)
      ensures Hist() == old(Hist()).Record(comb, healthy) && checks == old(checks) + [comb]
      ensures checker.counter == old(checker.counter) + 1
      ensures exists t ::
        && IsPadding(t, comb, safeValues.value) && checker.executed == old(checker.executed) + {t}
        && forall i :: 0 <= i < size && comb[i] == UNKNOWN && safeValues.value[i] == UNKNOWN ==> t[i] == 1 - test[i]
      ensures RunLog().Follows(old(RunLog()), safeValues.value, {test})
    {
      ghost var before := RunLog();
      var padded := PadAgainst(comb, safeValues.value, test);
      OppositeIsPadding(comb, safeValues.value, test);
      healthy := RunAndRecord(comb, padded.value);
      RunLog().FollowsStep(before, padded.value, comb, safeValues.value, test);
    }

    method RunAndRecord(comb: Comb, padded: Comb) returns (healthy: bool)
      requires Configured() && Valid()
      requires |comb| == size && IsPadding(padded, comb, safeValues.value)
      modifies this`healthyCombs, this`faultyCombs, this`checks, checker
      ensures Valid()
      ensures healthy <==> !IsFaulty(checker.mfs, comb)
      ensures Hist() == old(Hist()).Record(comb, healthy) && checks == old(checks) + [comb]
      ensures checker.counter == old(checker.counter) + 1 && checker.executed == old(checker.executed) + {padded}
    {
      var verdict := checker.Check(padded);
      VerdictIsPass(checker.mfs, padded);
      PaddingIsExact(padded, comb, safeValues.value, checker.mfs);
      Hist().RecordKeepsSound(checker.mfs, comb);
      healthy := verdict.value;
      HistoryGrows(checker.mfs, checks, comb);
      checks := checks + [comb];
      if healthy {
        healthyCombs := healthyCombs + [comb];
      } else {
        faultyCombs := faultyCombs + [comb];
      }
    }

    /** Pending exactly when no recorded healthy combination contains it and it contains no recorded faulty one. */
    method CheckPending(comb: Comb) returns (r: Result<bool>)
      requires Valid()
      ensures |comb| == size ==> r == Ok(Hist().Pending(comb))
      ensures |comb| == size && !r.value ==> (IsFaulty(checker.mfs, comb) <==> Hist().KnownFaulty(comb))
      ensures |comb| != size ==> r == if Hist() == History([], []) then Ok(true) else Err
    {
      Hist().NotPendingIsRight(checker.mfs, comb);
      for k := 0 to |healthyCombs|
        invariant k > 0 ==> |comb| == size
        invariant forall j :: 0 <= j < k ==> !Covers(healthyCombs[j], comb)
      {
        var contained := Contains(healthyCombs[k], comb);
        if contained.Err? {
          return Err;
        }
        if contained.value {
          return Ok(false);
        }
      }
      for k := 0 to |faultyCombs|
        invariant k > 0 ==> |comb| == size
        invariant forall j :: 0 <= j < k ==> !Covers(comb, faultyCombs[j])
      {
        var contained := Contains(comb, faultyCombs[k]);
        if contained.Err? {
          return Err;
        }
        if contained.value {
          return Ok(false);
        }
      }
      r := Ok(true);
    }
  }
}
