/** Eliminating states whose only transition is a plain epsilon, by redirecting their predecessors. */
module StateMerging {
  import opened Results
  import opened Automata
  import opened EpsilonClosure

  /** A transition list after its transitions to x were redirected to y. */
  ghost predicate RedirectedList(before: seq<Transition>, after: seq<Transition>, x: int, y: int) {
    && (forall t :: t in after && t.to >= 0 ==>
      t.to != x && (t in before || (t.to == y && Transition(t.atom, x) in before)))
    && (forall t :: t in before && t.to >= 0 ==> (if t.to == x then Transition(t.atom, y) else t) in after)
  }

  /** The table after state x, whose only transition is an epsilon to y, was merged into y. */
  ghost predicate Merged(a: Slots, b: Slots, x: int, y: int) {
    && |a| == |b| && x != y
    && (forall q :: Live(a, q) <==> Live(b, q))
    && Live(a, x) && Live(a, y) && y >= 0
    && a[x].value.trans == [Transition(None, y)]
    && (forall q :: Live(a, q) && q != x ==> RedirectedList(a[q].value.trans, b[q].value.trans, x, y))
    && (forall q :: Live(a, q) && q != x && q != y ==> (IsFinal(b, q) <==> IsFinal(a, q)))
    && (IsFinal(b, y) <==> IsFinal(a, y) || IsFinal(a, x))
  }

  /** Merging loses no word; words of x become words of y. */
  lemma {:induction false} MergeLosesNothing(a: Slots, b: Slots, m: Matcher, x: int, y: int, q: int, w: Word,
                                             path: seq<Transition>)
    requires Merged(a, b, x, y) && Run(a, m, q, w, path)
    ensures Accepts(b, m, if q == x then y else q, w)
    decreases |path|
  {
    var q' := if q == x then y else q;
    assert Live(b, q');
    if path == [] {
      AcceptsEmpty(b, m, q');
    } else {
      var t := path[0];
      assert t in a[q].value.trans && Live(a, t.to);
      MergeLosesNothing(a, b, m, x, y, t.to, if t.atom == None then w else w[1..], path[1..]);
      if q != x {
        var t' := if t.to == x then Transition(t.atom, y) else t;
        assert Has(b, q, t');
        AcceptsByStep(b, m, q, t', w);
      }
    }
  }

  lemma {:induction false} MergeAddsNothing(a: Slots, b: Slots, m: Matcher, x: int, y: int, q: int, w: Word,
                                            path: seq<Transition>)
    requires Merged(a, b, x, y) && (IsFinal(a, x) ==> Accepts(a, m, y, []))
    requires q != x && Run(b, m, q, w, path)
    ensures Accepts(a, m, q, w)
    decreases |path|
  {
    if path == [] {
      if IsFinal(a, q) {
        AcceptsEmpty(a, m, q);
      }
    } else {
      var t := path[0];
      assert t in b[q].value.trans && Live(b, t.to);
      var rest := if t.atom == None then w else w[1..];
      MergeAddsNothing(a, b, m, x, y, t.to, rest, path[1..]);
      if Has(a, q, t) {
        AcceptsByStep(a, m, q, t, w);
      } else {
        AcceptsByEpsilon(a, m, x, y, rest);
        AcceptsByStep(a, m, q, Transition(t.atom, x), w);
      }
    }
  }

  lemma {:induction false} EmptyWordRun(a: Slots, m: Matcher, q: int, path: seq<Transition>)
    requires Run(a, m, q, [], path)
    ensures FinalInClosure(a, q)
    decreases |path|
  {
    if path == [] {
      ReachesItself(a, q);
    } else {
      var t := path[0];
      EmptyWordRun(a, m, t.to, path[1..]);
      var u :| Reaches(a, t.to, u) && Live(a, u) && IsFinal(a, u);
      var p :| EpsilonPath(a, p) && p[0] == t.to && p[|p| - 1] == u;
      assert t == Transition(None, t.to);
      assert EpsilonPath(a, [q] + p);
      assert ([q] + p)[|p|] == u;
      assert Reaches(a, q, u);
    }
  }

  /** The empty word is accepted exactly when epsilon transitions alone lead to a final state. */
  lemma EmptyWordIsClosure(a: Slots, m: Matcher, q: int)
    ensures Accepts(a, m, q, []) <==> FinalInClosure(a, q)
  {
    if path :| Run(a, m, q, [], path) {
      EmptyWordRun(a, m, q, path);
    }
    if u :| Reaches(a, q, u) && Live(a, u) && IsFinal(a, u) {
      AcceptsEmpty(a, m, u);
      var p :| EpsilonPath(a, p) && p[0] == q && p[|p| - 1] == u;
      AcceptsBackAlong(a, m, p, []);
    }
  }

  /** When the eliminated state is final, its target must lead to a final state without reading anything. */
  ghost predicate SafeMerge(a: Slots, x: int, y: int)
    requires Live(a, x)
  {
    IsFinal(a, x) ==> FinalInClosure(a, y)
  }

  ghost predicate SameExcept(a: Slots, b: Slots, m: Matcher, gone: set<int>) {
    forall q, w :: q !in gone ==> (Accepts(a, m, q, w) <==> Accepts(b, m, q, w))
  }

  /** All other states accept the same words, whatever the atoms stand for. */
  ghost predicate SameElsewhere(a: Slots, b: Slots, gone: set<int>) {
    forall m: Matcher :: SameExcept(a, b, m, gone)
  }

  /** Merging keeps the language of every other state exactly when it is safe. */
  lemma MergeIsExact(a: Slots, b: Slots, m: Matcher, x: int, y: int)
    requires Merged(a, b, x, y)
    ensures SameExcept(a, b, m, {x}) <==> SafeMerge(a, x, y)
    ensures !SafeMerge(a, x, y) ==> !FinalInClosure(a, y) && FinalInClosure(b, y)
  {
    EmptyWordIsClosure(a, m, y);
    EmptyWordIsClosure(b, m, y);
    if SafeMerge(a, x, y) {
      forall q, w | q != x
        ensures Accepts(a, m, q, w) <==> Accepts(b, m, q, w)
      {
        if path :| Run(a, m, q, w, path) {
          MergeLosesNothing(a, b, m, x, y, q, w, path);
        }
        if path :| Run(b, m, q, w, path) {
          MergeAddsNothing(a, b, m, x, y, q, w, path);
        }
      }
    } else {
      assert Live(b, y);
      AcceptsEmpty(b, m, y);
      assert y !in {x};
    }
  }

  /** A two-state automaton that accepts no word from state 1, until the final state 0 is merged into it. */
  lemma UnsafeMergeExample(m: Matcher)
    ensures var a: Slots := [Some(State(FinalState, [Transition(None, 1)])), Some(State(TransState, []))];
            var b: Slots := [Some(State(UnreachState, [])), Some(State(FinalState, []))];
            Merged(a, b, 0, 1) && !Accepts(a, m, 1, []) && Accepts(b, m, 1, [])
  {
    var a: Slots := [Some(State(FinalState, [Transition(None, 1)])), Some(State(TransState, []))];
    var b: Slots := [Some(State(UnreachState, [])), Some(State(FinalState, []))];
    AcceptsEmpty(b, m, 1);
    forall path
      ensures !Run(a, m, 1, [], path)
    {
    }
  }

  /** Every live transition is known to its target. */
  ghost predicate Backlinked(a: Slots, transTo: seq<seq<nat>>) {
    && |transTo| == |a|
    && (forall q, t :: Live(a, q) && Has(a, q, t) && 0 <= t.to < |a| ==> q in transTo[t.to])
    && (forall v, i :: 0 <= v < |a| && 0 <= i < |transTo[v]| ==> transTo[v][i] < |a|)
  }

  ghost predicate AllLive(a: Slots) {
    forall q :: 0 <= q < |a| ==> Live(a, q)
  }

  /** The first j transitions of a list were looked at; those to x were removed and added again towards y. */
  ghost predicate ScannedList(before: seq<Transition>, now: seq<Transition>, x: int, y: int, j: int) {
    && |before| <= |now| && 0 <= j <= |now|
    && (forall i :: 0 <= i < |before| ==>
      now[i] == if i < j && before[i].to == x then before[i].(to := -1) else before[i])
    && (forall i :: |before| <= i < |now| ==> now[i].to == y && Transition(now[i].atom, x) in before)
    && (forall i :: 0 <= i < j && i < |before| && before[i].to == x ==> Transition(before[i].atom, y) in now)
  }

  lemma ScanKeeps(before: seq<Transition>, now: seq<Transition>, x: int, y: int, j: int)
    requires ScannedList(before, now, x, y, j) && j < |now| && now[j].to != x
    ensures ScannedList(before, now, x, y, j + 1)
  {
  }

  lemma ScanRedirects(before: seq<Transition>, now: seq<Transition>, x: int, y: int, j: int)
    requires ScannedList(before, now, x, y, j) && j < |now| && now[j].to == x && 0 <= x && 0 <= y && x != y
    ensures var t := Transition(now[j].atom, y);
            ScannedList(before, AddedTrans(now[j := now[j].(to := -1)], t), x, y, j + 1)
  {
    var t := Transition(now[j].atom, y);
    var dropped := now[j := now[j].(to := -1)];
    var next := AddedTrans(dropped, t);
    assert t in next;
    assert j < |before| && before[j] == Transition(before[j].atom, x);
    forall i | 0 <= i < j && i < |before| && before[i].to == x
      ensures Transition(before[i].atom, y) in next
    {
      var k :| 0 <= k < |now| && now[k] == Transition(before[i].atom, y);
      assert next[k] == now[k];
    }
  }

  lemma ScanDone(before: seq<Transition>, now: seq<Transition>, x: int, y: int)
    requires ScannedList(before, now, x, y, |now|) && 0 <= x && 0 <= y && x != y
    ensures RedirectedInPlace(before, now, x, y)
  {
    forall t | t in before && t.to >= 0
      ensures (if t.to == x then Transition(t.atom, y) else t) in now
    {
      var i :| 0 <= i < |before| && before[i] == t;
      if t.to != x {
        assert now[i] == t;
      }
    }
    forall t | t in now && t.to >= 0
      ensures t.to != x && (t in before || (t.to == y && Transition(t.atom, x) in before))
    {
      var i :| 0 <= i < |now| && now[i] == t;
    }
    if |before| == 1 && before[0].to == x {
      assert Transition(before[0].atom, y) in now;
    }
    ScanFindsNothing(before, now, x, y);
    forall n: nat | KnownAtoms(before, n)
      ensures KnownAtoms(now, n)
    {
      ScanKeepsAtoms(before, now, x, y, n);
    }
  }

  lemma ScanKeepsAtoms(before: seq<Transition>, now: seq<Transition>, x: int, y: int, n: nat)
    requires ScannedList(before, now, x, y, |now|) && 0 <= y && KnownAtoms(before, n)
    ensures KnownAtoms(now, n)
  {
    forall t | t in now && t.atom.Some?
      ensures t.atom.value < n && t.to >= -1
    {
      var i :| 0 <= i < |now| && now[i] == t;
      if i < |before| {
        assert before[i] in before;
      }
    }
  }

  lemma ScanFindsNothing(before: seq<Transition>, now: seq<Transition>, x: int, y: int)
    requires ScannedList(before, now, x, y, |now|)
    ensures now == before || LeadsTo(before, x)
  {
    if |now| > |before| {
      assert Transition(now[|before|].atom, x) in before;
    }
  }

  /**
   * Redirected, and unchanged if nothing led to x or if the list was or ends up too short to hold a removed
   * transition.
   */
  ghost predicate RedirectedInPlace(before: seq<Transition>, after: seq<Transition>, x: int, y: int) {
    && RedirectedList(before, after, x, y)
    && (|after| <= 1 || before == [] || !LeadsTo(before, x) ==> after == before)
    && (forall n: nat :: KnownAtoms(before, n) ==> KnownAtoms(after, n))
  }

  /** Atoms are among the first n, and -1 is the only negative target of an atom transition. */
  ghost predicate KnownAtoms(list: seq<Transition>, n: nat) {
    forall t :: t in list && t.atom.Some? ==> t.atom.value < n && t.to >= -1
  }

  ghost predicate LeadsTo(list: seq<Transition>, x: int) {
    exists t :: t in list && t.to == x
  }

  /** A list without transitions to x is its own redirection. */
  lemma NothingToRedirect(list: seq<Transition>, x: int, y: int)
    requires forall t :: t in list ==> t.to != x
    ensures RedirectedList(list, list, x, y)
  {
  }

  lemma RedirectedTwice(before: seq<Transition>, mid: seq<Transition>, after: seq<Transition>, x: int, y: int)
    requires x != y && x >= 0 && y >= 0
    requires RedirectedList(before, mid, x, y) && RedirectedList(mid, after, x, y)
    ensures RedirectedList(before, after, x, y)
  {
    forall t | t in before && t.to >= 0
      ensures (if t.to == x then Transition(t.atom, y) else t) in after
    {
      var t' := if t.to == x then Transition(t.atom, y) else t;
      assert t' in mid;
    }
  }

  /** Redirects the transitions of state q that lead to x. */
  method RedirectTransitions(am: Automaton, q: int, x: int, y: int)
    requires am.Valid() && AllLive(am.states) && Backlinked(am.states, am.transTo)
    requires 0 <= q < |am.states| && 0 <= x < |am.states| && 0 <= y < |am.states| && x != y
    modifies am`states, am`transTo
    ensures am.Valid() && AllLive(am.states) && Backlinked(am.states, am.transTo)
    ensures |am.states| == |old(am.states)| && Live(old(am.states), q) && Live(am.states, q)
    ensures am.states == WithTrans(old(am.states), q, am.states[q].value.trans)
    ensures RedirectedInPlace(old(am.states)[q].value.trans, am.states[q].value.trans, x, y)
    ensures am.transTo[x] == old(am.transTo)[x]
  {
    assert Live(am.states, q);
    ghost var a, before := am.states, am.states[q].value.trans;
    var j := 0;
    while j < |am.states[q].value.trans|
      invariant am.Valid() && Backlinked(am.states, am.transTo)
      invariant |am.states| == |a| && Live(am.states, q) && am.states == WithTrans(a, q, am.states[q].value.trans)
      invariant ScannedList(before, am.states[q].value.trans, x, y, j)
      invariant am.transTo[x] == old(am.transTo)[x]
      decreases if j < |before| then |before| - j else 0, |am.states[q].value.trans| - j
    {
      ghost var now := am.states[q].value.trans;
      var t := am.states[q].value.trans[j];
      if t.to == x {
        ScanRedirects(before, now, x, y, j);
        assert Live(a, y);
        RedirectOne(am, q, j, y);
      } else {
        ScanKeeps(before, now, x, y, j);
      }
      j := j + 1;
    }
    ScanDone(before, am.states[q].value.trans, x, y);
    StillAllLive(a, q, am.states[q].value.trans);
  }

  lemma StillAllLive(a: Slots, q: int, trans: seq<Transition>)
    requires AllLive(a) && Live(a, q)
    ensures AllLive(WithTrans(a, q, trans))
  {
    forall r | 0 <= r < |a|
      ensures Live(WithTrans(a, q, trans), r)
    {
      assert Live(a, r);
    }
  }

  /** Removes transition j of state q and adds it again towards y. */
  method RedirectOne(am: Automaton, q: int, j: int, y: int)
    requires am.Valid() && Backlinked(am.states, am.transTo)
    requires Live(am.states, q) && Live(am.states, y) && 0 <= j < |am.states[q].value.trans|
    requires y != am.states[q].value.trans[j].to
    modifies am`states, am`transTo
    ensures am.Valid() && Backlinked(am.states, am.transTo)
    ensures |am.transTo| == |old(am.transTo)| && forall v :: 0 <= v < |am.transTo| && v != y ==>
      am.transTo[v] == old(am.transTo)[v]
    ensures var list := old(am.states)[q].value.trans;
            var added := AddedTrans(list[j := list[j].(to := -1)], Transition(list[j].atom, y));
            am.states == WithTrans(old(am.states), q, added)
  {
    var t := am.states[q].value.trans[j];
    SetTargetKeepsLinks(am.states, am.transTo, q, j);
    am.SetTarget(q, j, -1);
    AddTransKeepsLinks(am.states, am.transTo, q, Transition(t.atom, y));
    am.AddTrans(q, t.atom, y);
  }

  lemma SetTargetKeepsLinks(a: Slots, transTo: seq<seq<nat>>, q: int, j: int)
    requires Backlinked(a, transTo) && Live(a, q) && 0 <= j < |a[q].value.trans|
    ensures Backlinked(WithTarget(a, q, j, -1), transTo)
  {
    var b := WithTarget(a, q, j, -1);
    forall r, t | Live(b, r) && Has(b, r, t) && 0 <= t.to < |b|
      ensures r in transTo[t.to]
    {
      assert Live(a, r) && Has(a, r, t);
    }
  }

  lemma AddTransKeepsLinks(a: Slots, transTo: seq<seq<nat>>, q: nat, t: Transition)
    requires Backlinked(a, transTo) && Live(a, q) && 0 <= t.to < |a|
    ensures var b := WithTrans(a, q, AddedTrans(a[q].value.trans, t));
            Backlinked(b, if Has(a, q, t) then transTo else transTo[t.to := transTo[t.to] + [q]])
  {
    var b := WithTrans(a, q, AddedTrans(a[q].value.trans, t));
    var links := if Has(a, q, t) then transTo else transTo[t.to := transTo[t.to] + [q]];
    forall r, u | Live(b, r) && Has(b, r, u) && 0 <= u.to < |b|
      ensures r in links[u.to]
    {
      if Live(a, r) && Has(a, r, u) {
        assert r in transTo[u.to];
      } else {
        assert r == q && u == t;
      }
    }
  }

  ghost predicate OneStateRedirected(before: State, after: State, x: int, y: int) {
    && after.kind == before.kind
    && RedirectedInPlace(before.trans, after.trans, x, y)
  }

  /** The states in `done` were redirected, the others not touched. */
  ghost predicate PartlyRedirected(a: Slots, c: Slots, x: int, y: int, done: set<int>) {
    && |a| == |c| && AllLive(a) && AllLive(c)
    && forall q :: 0 <= q < |a| ==>
      Live(a, q) && Live(c, q) && if q in done then OneStateRedirected(a[q].value, c[q].value, x, y) else c[q] == a[q]
  }

  lemma RedirectOneMore(a: Slots, c: Slots, d: Slots, x: int, y: int, done: set<int>, q: int)
    requires PartlyRedirected(a, c, x, y, done) && 0 <= q < |a| && x != y && x >= 0 && y >= 0
    requires |d| == |c| && AllLive(d) && Live(c, q) && Live(d, q) && d == WithTrans(c, q, d[q].value.trans)
    requires RedirectedInPlace(c[q].value.trans, d[q].value.trans, x, y)
    ensures PartlyRedirected(a, d, x, y, done + {q})
  {
    forall r | 0 <= r < |a|
      ensures Live(a, r) && Live(d, r)
      ensures if r in done + {q} then OneStateRedirected(a[r].value, d[r].value, x, y) else d[r] == a[r]
    {
      assert Live(a, r) && Live(d, r) && Live(c, r);
      if r == q && q in done {
        RedirectedTwice(a[q].value.trans, c[q].value.trans, d[q].value.trans, x, y);
      }
    }
  }

  /** Once all known predecessors are redirected, every state is. */
  lemma AllRedirected(a: Slots, c: Slots, x: int, y: int, done: set<int>)
    requires PartlyRedirected(a, c, x, y, done)
    requires forall q, t :: Live(a, q) && Has(a, q, t) && t.to == x ==> q in done
    ensures forall q :: Live(a, q) ==> Live(c, q) && OneStateRedirected(a[q].value, c[q].value, x, y)
  {
    forall q | Live(a, q)
      ensures Live(c, q) && OneStateRedirected(a[q].value, c[q].value, x, y)
    {
      if q !in done {
        forall t | t in a[q].value.trans
          ensures t.to != x
        {
          assert Has(a, q, t);
        }
        NothingToRedirect(a[q].value.trans, x, y);
      }
    }
  }

  ghost predicate AllKnown(a: Slots, n: nat) {
    forall q :: Live(a, q) ==> KnownAtoms(a[q].value.trans, n)
  }

  /** What merging x into y leaves behind, besides the languages. */
  ghost predicate MergeFrame(a: Slots, b: Slots, x: int, y: int) {
    && |a| == |b| && Live(a, x) && AllLive(b)
    && b[x] == Some(State(UnreachState, []))
    && (forall q :: Live(a, q) && q != x ==>
         Live(b, q) && (|b[q].value.trans| <= 1 || a[q].value.trans == [] || !LeadsTo(a[q].value.trans, x) ==>
           b[q].value.trans == a[q].value.trans))
    && (forall n: nat :: AllKnown(a, n) ==> AllKnown(b, n))
    && (forall q :: Live(a, q) && q != x ==>
         b[q].value.kind == if q == y && IsFinal(a, x) then FinalState else a[q].value.kind)
  }

  /** Merges state x into y: its predecessors are redirected and it is marked unreachable. */
  method MergeState(am: Automaton, x: int, y: int)
    requires am.Valid() && AllLive(am.states) && Backlinked(am.states, am.transTo)
    requires Live(am.states, x) && 0 <= y < |am.states| && x != y
    requires am.states[x].value.trans == [Transition(None, y)]
    modifies am`states, am`transTo
    ensures am.Valid() && Backlinked(am.states, am.transTo)
    ensures Merged(old(am.states), am.states, x, y) && MergeFrame(old(am.states), am.states, x, y)
  {
    ghost var a, done := am.states, {};
    ghost var links := am.transTo[x];
    assert forall q :: 0 <= q < |a| ==> Live(a, q);
    for i := 0 to |am.transTo[x]|
      invariant am.Valid() && Backlinked(am.states, am.transTo)
      invariant PartlyRedirected(a, am.states, x, y, done)
      invariant am.transTo[x] == links
      invariant forall j :: 0 <= j < i ==> links[j] in done
    {
      var q := am.transTo[x][i];
      ghost var c := am.states;
      RedirectTransitions(am, q, x, y);
      RedirectOneMore(a, c, am.states, x, y, done, q);
      done := done + {q};
    }
    AllRedirected(a, am.states, x, y, done);
    Finish(am, a, x, y);
  }

  /** The last steps of a merge: y inherits finality, and x loses its transition. */
  method Finish(am: Automaton, ghost a: Slots, x: int, y: int)
    requires am.Valid() && Backlinked(am.states, am.transTo)
    requires |am.states| == |a| && AllLive(a) && AllLive(am.states)
    requires Live(a, x) && Live(a, y) && x != y && a[x].value.trans == [Transition(None, y)]
    requires forall q :: Live(a, q) ==> Live(am.states, q) && OneStateRedirected(a[q].value, am.states[q].value, x, y)
    modifies am`states
    ensures am.Valid() && Backlinked(am.states, am.transTo)
    ensures Merged(a, am.states, x, y) && MergeFrame(a, am.states, x, y)
  {
    assert Live(am.states, x) && Live(am.states, y);
    ghost var c := am.states;
    if am.states[x].value.kind == FinalState {
      am.states := am.states[y := Some(am.states[y].value.(kind := FinalState))];
    }
    am.states := am.states[x := Some(State(UnreachState, []))];
    FinishKeepsLinks(c, am.states, am.transTo);
    FinishIsMerge(a, c, am.states, x, y);
  }

  lemma FinishKeepsLinks(c: Slots, d: Slots, transTo: seq<seq<nat>>)
    requires TargetsInRange(c) && Backlinked(c, transTo) && |d| == |c|
    requires forall q :: Live(d, q) ==> Live(c, q) && (d[q].value.trans == c[q].value.trans || d[q].value.trans == [])
    ensures TargetsInRange(d) && Backlinked(d, transTo)
  {
    forall q, t | Live(d, q) && Has(d, q, t)
      ensures t.to < |d| && (t.to >= 0 ==> q in transTo[t.to])
    {
      assert Live(c, q) && Has(c, q, t);
    }
  }

  lemma FinishIsMerge(a: Slots, c: Slots, d: Slots, x: int, y: int)
    requires |a| == |c| && AllLive(a) && AllLive(c)
    requires Live(a, x) && Live(a, y) && Live(c, x) && Live(c, y) && x != y && a[x].value.trans == [Transition(None, y)]
    requires forall q :: Live(a, q) ==> Live(c, q) && OneStateRedirected(a[q].value, c[q].value, x, y)
    requires var e := if IsFinal(c, x) then c[y := Some(c[y].value.(kind := FinalState))] else c;
             d == e[x := Some(State(UnreachState, []))]
    ensures Merged(a, d, x, y) && MergeFrame(a, d, x, y)
  {
    FinishChangesTwo(c, d, x, y);
    FinishKeepsAtoms(a, c, d, x, y);
    FinishMerges(a, c, d, x, y);
    FinishFrames(a, c, d, x, y);
  }

  /** x is marked, and y is final if x was; the transitions of the others are as before. */
  ghost predicate Finished(c: Slots, d: Slots, x: int, y: int) {
    && |d| == |c| && AllLive(c) && AllLive(d) && Live(c, x) && Live(c, y) && x != y
    && d[x] == Some(State(UnreachState, []))
    && forall q :: Live(d, q) && q != x ==>
      && Live(c, q) && d[q].value.trans == c[q].value.trans
      && d[q].value.kind == if q == y && IsFinal(c, x) then FinalState else c[q].value.kind
  }

  lemma FinishChangesTwo(c: Slots, d: Slots, x: int, y: int)
    requires AllLive(c) && Live(c, x) && Live(c, y) && x != y
    requires var e := if IsFinal(c, x) then c[y := Some(c[y].value.(kind := FinalState))] else c;
             d == e[x := Some(State(UnreachState, []))]
    ensures Finished(c, d, x, y)
  {
    forall q | 0 <= q < |d|
      ensures Live(d, q)
    {
      assert Live(c, q);
    }
  }

  lemma FinishMerges(a: Slots, c: Slots, d: Slots, x: int, y: int)
    requires |a| == |c| && AllLive(a) && Finished(c, d, x, y) && Live(a, x) && a[x].value.trans == [Transition(None, y)]
    requires forall q :: Live(a, q) ==> Live(c, q) && OneStateRedirected(a[q].value, c[q].value, x, y)
    ensures Merged(a, d, x, y)
  {
    forall q | Live(a, q)
      ensures Live(d, q) && (q != x ==> RedirectedList(a[q].value.trans, d[q].value.trans, x, y))
    {
      assert OneStateRedirected(a[q].value, c[q].value, x, y);
    }
    assert Live(a, y);
  }

  lemma FinishFrames(a: Slots, c: Slots, d: Slots, x: int, y: int)
    requires |a| == |c| && AllLive(a) && Finished(c, d, x, y) && Live(a, x)
    requires forall q :: Live(a, q) ==> Live(c, q) && OneStateRedirected(a[q].value, c[q].value, x, y)
    requires forall n: nat :: AllKnown(a, n) ==> AllKnown(d, n)
    ensures MergeFrame(a, d, x, y)
  {
  }

  lemma FinishKeepsAtoms(a: Slots, c: Slots, d: Slots, x: int, y: int)
    requires |a| == |c| == |d| && AllLive(a) && AllLive(c)
    requires forall q :: Live(a, q) ==> Live(c, q) && OneStateRedirected(a[q].value, c[q].value, x, y)
    requires forall q :: Live(d, q) ==> Live(c, q) && (d[q].value.trans == c[q].value.trans || d[q].value.trans == [])
    ensures forall n: nat :: AllKnown(a, n) ==> AllKnown(d, n)
  {
    forall n: nat, q | AllKnown(a, n) && Live(d, q)
      ensures KnownAtoms(d[q].value.trans, n)
    {
      assert Live(a, q) && KnownAtoms(a[q].value.trans, n);
    }
  }

  /** What the sweep does to a table, without its transitions: the states merged away, and the final states. */
  datatype Sweep = Sweep(gone: set<int>, finals: set<int>)

  /** State q, as the table was at first, has a single transition, a plain epsilon to another state. */
  ghost predicate SimpleTo(a: Slots, q: int, y: int) {
    Live(a, q) && a[q].value.trans == [Transition(None, y)] && 0 <= y && y != q
  }

  /**
   * Whether the sweep merges state q into y: not if y is gone already, nor if q is a start state that is
   * not final by now.
   */
  ghost predicate Merges(a: Slots, p: Sweep, q: int, y: int) {
    SimpleTo(a, q, y) && y !in p.gone && (q in p.finals || a[q].value.kind != StartState)
  }

  /** The sweep over the states below s, from the initial table alone. */
  ghost function Plan(a: Slots, s: nat): Sweep
    requires s <= |a|
  {
    if s == 0 then Sweep({}, set q | 0 <= q < |a| && Live(a, q) && IsFinal(a, q))
    else
      var p, q := Plan(a, s - 1), s - 1;
      if y :| Merges(a, p, q, y) then Sweep(p.gone + {q}, if q in p.finals then p.finals + {y} else p.finals) else p
  }

  /** The states that the sweep merges away. */
  ghost function MergedAway(a: Slots): set<int> {
    Plan(a, |a|).gone
  }

  /** Every final state among `gone` leads to a final state by epsilons alone. */
  ghost predicate FinalsCovered(a: Slots, gone: set<int>) {
    forall x, y :: x in gone && SimpleTo(a, x, y) && IsFinal(a, x) ==> FinalInClosure(a, y)
  }

  /** The condition on the initial table under which the sweep changes no language. */
  ghost predicate SafeSweep(a: Slots) {
    FinalsCovered(a, MergedAway(a))
  }

  /** It holds when final states with a single plain epsilon lead to final states. */
  ghost predicate FinalsLeadToFinals(a: Slots) {
    forall x, y :: SimpleTo(a, x, y) && IsFinal(a, x) ==> Live(a, y) && IsFinal(a, y)
  }

  lemma FinalsLeadToFinalsIsSafe(a: Slots)
    requires FinalsLeadToFinals(a)
    ensures SafeSweep(a)
  {
    forall x, y | SimpleTo(a, x, y) && IsFinal(a, x)
      ensures FinalInClosure(a, y)
    {
      ReachesItself(a, y);
    }
  }

  /** The table agrees with the plan: final states, kinds, and the simple states still to come. */
  ghost predicate Planned(a: Slots, c: Slots, s: nat)
    requires s <= |a|
  {
    var p := Plan(a, s);
    && (forall q :: Live(a, q) && IsFinal(a, q) ==> q in p.finals)
    && (forall q :: Live(c, q) && Live(a, q) && q !in p.gone ==>
         c[q].value.kind == if q in p.finals then FinalState else a[q].value.kind)
    && (forall q, y :: s <= q && SimpleTo(a, q, y) && y !in p.gone ==>
      Live(c, q) && c[q].value.trans == [Transition(None, y)])
  }

  /** The sweep has looked at the states below s; `gone` were merged away. */
  ghost predicate Swept(a: Slots, c: Slots, gone: set<int>, s: int) {
    && |a| == |c| && AllLive(a) && AllLive(c) && 0 <= s <= |a|
    && (forall q :: q in gone ==> 0 <= q < s && c[q] == Some(State(UnreachState, [])))
    && (forall q :: Live(c, q) && q !in gone ==> c[q].value.kind != UnreachState)
    && (forall q, t :: Live(c, q) && q !in gone && Has(c, q, t) && t.to >= 0 ==> t.to !in gone)
    && (forall q :: Live(c, q) && s <= q && |c[q].value.trans| == 1 ==>
      Live(a, q) && c[q].value.trans == a[q].value.trans)
    && (s == 0 ==> c == a)
    && (s > 0 && 0 in gone ==> Live(a, 0) && a[0].value.kind != StartState)
  }

  /** Some surviving state has gained the empty word. */
  ghost predicate GainedEmptyWord(a: Slots, c: Slots, gone: set<int>) {
    exists u :: u !in gone && FinalInClosure(c, u) && !FinalInClosure(a, u)
  }

  /** No other state has lost a word. */
  ghost predicate KeepsWords(a: Slots, c: Slots, gone: set<int>) {
    forall m: Matcher, q, w :: q !in gone && Accepts(a, m, q, w) ==> Accepts(c, m, q, w)
  }

  lemma MergeKeepsWords(a: Slots, c: Slots, d: Slots, gone: set<int>, s: int, y: int)
    requires KeepsWords(a, c, gone) && Merged(c, d, s, y)
    ensures KeepsWords(a, d, gone + {s})
  {
    forall m: Matcher, q, w | q !in gone + {s} && Accepts(a, m, q, w)
      ensures Accepts(d, m, q, w)
    {
      var path :| Run(c, m, q, w, path);
      MergeLosesNothing(c, d, m, s, y, q, w, path);
    }
  }

  /** No word is lost. Safe so far: same languages. Not safe: some language has grown for good. */
  ghost predicate Judged(a: Slots, c: Slots, gone: set<int>) {
    && KeepsWords(a, c, gone)
    && (FinalsCovered(a, gone) ==> SameElsewhere(a, c, gone))
    && (!FinalsCovered(a, gone) ==> GainedEmptyWord(a, c, gone))
  }

  lemma EmptyWordSurvivesMerge(c: Slots, d: Slots, x: int, y: int, u: int)
    requires Merged(c, d, x, y) && FinalInClosure(c, u)
    ensures FinalInClosure(d, if u == x then y else u)
  {
    var m: Matcher := (atom, symbol) => true;
    EmptyWordIsClosure(c, m, u);
    var path :| Run(c, m, u, [], path);
    MergeLosesNothing(c, d, m, x, y, u, [], path);
    EmptyWordIsClosure(d, m, if u == x then y else u);
  }

  lemma EmptyWordThroughEpsilon(a: Slots, x: int, y: int)
    requires Live(a, x) && Has(a, x, Transition(None, y)) && FinalInClosure(a, y)
    ensures FinalInClosure(a, x)
  {
    var m: Matcher := (atom, symbol) => true;
    EmptyWordIsClosure(a, m, y);
    AcceptsByEpsilon(a, m, x, y, []);
    EmptyWordIsClosure(a, m, x);
  }

  /** Merging one more state is safe exactly when the initial table says so. */
  lemma StepIsSafe(a: Slots, c: Slots, gone: set<int>, s: int, y: int)
    requires SameElsewhere(a, c, gone)
    requires SimpleTo(a, s, y) && Live(c, s) && c[s].value.trans == [Transition(None, y)] && s !in gone && y !in gone
    requires IsFinal(a, s) ==> IsFinal(c, s)
    ensures SafeMerge(c, s, y) <==> (IsFinal(a, s) ==> FinalInClosure(a, y))
  {
    SameEmptyWord(a, c, gone, y);
    SameEmptyWord(a, c, gone, s);
    if IsFinal(c, s) && !IsFinal(a, s) {
      ReachesItself(c, s);
      OnlyThroughEpsilon(a, s, y);
    }
  }

  lemma SameEmptyWord(a: Slots, c: Slots, gone: set<int>, q: int)
    requires SameElsewhere(a, c, gone) && q !in gone
    ensures FinalInClosure(a, q) <==> FinalInClosure(c, q)
  {
    var m: Matcher := (atom, symbol) => true;
    assert SameExcept(a, c, m, gone);
    EmptyWordIsClosure(a, m, q);
    EmptyWordIsClosure(c, m, q);
  }

  /** A state that is not final and only has an epsilon accepts the empty word only through it. */
  lemma OnlyThroughEpsilon(a: Slots, s: int, y: int)
    requires SimpleTo(a, s, y) && !IsFinal(a, s) && FinalInClosure(a, s)
    ensures FinalInClosure(a, y)
  {
    var u :| Reaches(a, s, u) && Live(a, u) && IsFinal(a, u);
    var p :| EpsilonPath(a, p) && p[0] == s && p[|p| - 1] == u;
    assert |p| > 1 && Has(a, p[0], Transition(None, p[1]));
    assert EpsilonPath(a, p[1..]);
    assert Reaches(a, y, u);
  }

  lemma CoveredStep(a: Slots, gone: set<int>, s: int, y: int)
    requires SimpleTo(a, s, y)
    ensures FinalsCovered(a, gone + {s}) <==> FinalsCovered(a, gone) && (IsFinal(a, s) ==> FinalInClosure(a, y))
  {
    if FinalsCovered(a, gone + {s}) {
      assert s in gone + {s};
    }
  }

  lemma JudgeMerge(a: Slots, c: Slots, d: Slots, gone: set<int>, s: int, y: int)
    requires Judged(a, c, gone) && SimpleTo(a, s, y)
    requires Live(c, s) && c[s].value.trans == [Transition(None, y)] && Live(c, y) && y !in gone && s !in gone
    requires IsFinal(a, s) ==> IsFinal(c, s)
    requires Merged(c, d, s, y)
    ensures Judged(a, d, gone + {s})
  {
    CoveredStep(a, gone, s, y);
    MergeKeepsWords(a, c, d, gone, s, y);
    if !FinalsCovered(a, gone) {
      JudgeLater(a, c, d, gone, s, y);
    } else {
      StepIsSafe(a, c, gone, s, y);
      if SafeMerge(c, s, y) {
        JudgeSafe(a, c, d, gone, s, y);
      } else {
        JudgeFirstUnsafe(a, c, d, gone, s, y);
      }
    }
  }

  lemma JudgeSafe(a: Slots, c: Slots, d: Slots, gone: set<int>, s: int, y: int)
    requires SameElsewhere(a, c, gone)
    requires Merged(c, d, s, y) && SafeMerge(c, s, y)
    ensures SameElsewhere(a, d, gone + {s})
  {
    forall m: Matcher
      ensures SameExcept(a, d, m, gone + {s})
    {
      assert SameExcept(a, c, m, gone);
      MergeIsExact(c, d, m, s, y);
    }
  }

  lemma JudgeFirstUnsafe(a: Slots, c: Slots, d: Slots, gone: set<int>, s: int, y: int)
    requires SameElsewhere(a, c, gone)
    requires Merged(c, d, s, y) && !SafeMerge(c, s, y) && y !in gone
    ensures GainedEmptyWord(a, d, gone + {s})
  {
    var m: Matcher := (atom, symbol) => true;
    MergeIsExact(c, d, m, s, y);
    assert SameExcept(a, c, m, gone);
    EmptyWordIsClosure(a, m, y);
    EmptyWordIsClosure(c, m, y);
    assert y !in gone + {s};
  }

  lemma JudgeLater(a: Slots, c: Slots, d: Slots, gone: set<int>, s: int, y: int)
    requires GainedEmptyWord(a, c, gone)
    requires Merged(c, d, s, y) && y !in gone && Live(a, s) && Has(a, s, Transition(None, y))
    ensures GainedEmptyWord(a, d, gone + {s})
  {
    var u :| u !in gone && FinalInClosure(c, u) && !FinalInClosure(a, u);
    EmptyWordSurvivesMerge(c, d, s, y, u);
    if u == s && FinalInClosure(a, y) {
      EmptyWordThroughEpsilon(a, s, y);
    }
    var v := if u == s then y else u;
    assert v !in gone + {s} && FinalInClosure(d, v) && !FinalInClosure(a, v);
  }

  /** The plan follows a merge. */
  lemma PlanMerge(a: Slots, c: Slots, d: Slots, s: nat, y: int)
    requires AllLive(a) && AllLive(c) && |a| == |c|
    requires s < |a| && Planned(a, c, s) && Merges(a, Plan(a, s), s, y) && s !in Plan(a, s).gone
    requires Merged(c, d, s, y) && MergeFrame(c, d, s, y)
    ensures Plan(a, s + 1).gone == Plan(a, s).gone + {s}
    ensures Planned(a, d, s + 1)
  {
    var p, p' := Plan(a, s), Plan(a, s + 1);
    assert Live(c, s) && Live(a, s);
    assert p' == Sweep(p.gone + {s}, if s in p.finals then p.finals + {y} else p.finals);
    forall q | Live(d, q) && Live(a, q) && q !in p'.gone
      ensures d[q].value.kind == if q in p'.finals then FinalState else a[q].value.kind
    {
      assert Live(c, q);
    }
    forall q, z | s + 1 <= q && SimpleTo(a, q, z) && z !in p'.gone
      ensures Live(d, q) && d[q].value.trans == [Transition(None, z)]
    {
      assert Live(c, q) && c[q].value.trans == [Transition(None, z)];
      assert !LeadsTo(c[q].value.trans, s);
    }
  }

  /** The plan follows a state that is left alone. */
  lemma PlanSkip(a: Slots, c: Slots, s: nat)
    requires s < |a| && Planned(a, c, s) && forall y :: !Merges(a, Plan(a, s), s, y)
    ensures Plan(a, s + 1) == Plan(a, s) && Planned(a, c, s + 1)
  {
  }

  lemma SweepMerge(a: Slots, c: Slots, d: Slots, gone: set<int>, s: int, y: int)
    requires Swept(a, c, gone, s) && s < |a| && Live(c, s) && y !in gone && s !in gone
    requires c[s].value.trans == [Transition(None, y)] && c[s].value.kind != StartState
    requires Merged(c, d, s, y) && MergeFrame(c, d, s, y)
    ensures Swept(a, d, gone + {s}, s + 1)
  {
    forall q, t | Live(d, q) && q !in gone + {s} && Has(d, q, t) && t.to >= 0
      ensures t.to !in gone + {s}
    {
      assert Live(c, q) && t in d[q].value.trans;
      if t in c[q].value.trans {
        assert Has(c, q, t);
      }
    }
    forall q | q in gone
      ensures d[q] == Some(State(UnreachState, []))
    {
      assert Live(c, q) && Live(d, q);
    }
  }

  /** A graph as the parser leaves it: no freed slot, no unreachable state, every transition known to its target. */
  ghost predicate Fresh(a: Slots, transTo: seq<seq<nat>>) {
    && AllLive(a) && Backlinked(a, transTo)
    && forall q :: Live(a, q) ==> a[q].value.kind != UnreachState
  }

  lemma SweepStart(a: Slots, transTo: seq<seq<nat>>)
    requires Fresh(a, transTo)
    ensures SweptTo(a, a, 0)
  {
  }

  lemma SweepSkip(a: Slots, c: Slots, gone: set<int>, s: int)
    requires Swept(a, c, gone, s) && s < |a|
    ensures Swept(a, c, gone, s + 1)
  {
  }

  /** Would state s be merged, and into which state? */
  method SimpleTarget(am: Automaton, s: int) returns (r: Option<int>)
    requires Live(am.states, s)
    ensures r.Some? ==> am.states[s].value.trans == [Transition(None, r.value)] && 0 <= r.value && r.value != s
    ensures r.Some? ==> am.states[s].value.kind != UnreachState && am.states[s].value.kind != StartState
    ensures r == None ==>
      || am.states[s].value.kind == UnreachState || am.states[s].value.kind == StartState
      || forall y :: 0 <= y && y != s ==> am.states[s].value.trans != [Transition(None, y)]
  {
    var state := am.states[s].value;
    if |state.trans| != 1 || state.kind == UnreachState {
      return None;
    }
    var t := state.trans[0];
    if t.atom == None && t.to >= 0 && t.to != s && state.kind != StartState {
      return Some(t.to);
    }
    r := None;
  }

  /**
   * The sweep over all states in order merges away the states of the plan. No other state loses a word, and
   * all of them keep their languages if and only if the initial table is safe for it.
   */
  method EliminateSimpleEpsilons(am: Automaton)
    requires am.Valid() && Fresh(am.states, am.transTo)
    modifies am`states, am`transTo
    ensures am.Valid() && Swept(old(am.states), am.states, MergedAway(old(am.states)), |am.states|)
    ensures KeepsWords(old(am.states), am.states, MergedAway(old(am.states)))
    ensures SafeSweep(old(am.states)) <==> SameElsewhere(old(am.states), am.states, MergedAway(old(am.states)))
    ensures SweepKeepsShape(old(am.states), am.states)
  {
    ghost var a := am.states;
    SweepStart(a, am.transTo);
    SweepAll(am, a);
    SweepIsExact(a, am.states, MergedAway(a));
  }

  ghost predicate NoSinks(a: Slots) {
    forall q :: Live(a, q) ==> a[q].value.kind != SinkState
  }

  /** The sweep brings in no atom and no sink. */
  ghost predicate SweepKeepsShape(a: Slots, c: Slots) {
    && (forall n: nat :: AllKnown(a, n) ==> AllKnown(c, n))
    && (NoSinks(a) ==> NoSinks(c))
  }

  method SweepAll(am: Automaton, ghost a: Slots)
    requires am.Valid() && Backlinked(am.states, am.transTo) && |am.states| == |a| && SweptTo(a, am.states, 0)
    modifies am`states, am`transTo
    ensures am.Valid() && |am.states| == |a| && SweptTo(a, am.states, |a|)
  {
    for s := 0 to |am.states|
      invariant am.Valid() && Backlinked(am.states, am.transTo) && |am.states| == |a|
      invariant SweptTo(a, am.states, s)
    {
      SweepOne(am, a, s);
    }
  }

  /** After the states below s: the sweep, its plan and its verdict on the languages. */
  ghost predicate SweptTo(a: Slots, c: Slots, s: nat) {
    && s <= |a| && Swept(a, c, Plan(a, s).gone, s) && Planned(a, c, s) && Judged(a, c, Plan(a, s).gone)
    && forall n: nat :: AllKnown(a, n) ==> AllKnown(c, n)
  }

  lemma SweptMerge(a: Slots, c: Slots, d: Slots, s: nat, y: int)
    requires SweptTo(a, c, s) && s < |a| && s !in Plan(a, s).gone
    requires Live(c, s) && c[s].value.trans == [Transition(None, y)] && 0 <= y && y != s
    requires c[s].value.kind != StartState
    requires Merged(c, d, s, y) && MergeFrame(c, d, s, y)
    ensures SweptTo(a, d, s + 1)
  {
    var gone := Plan(a, s).gone;
    TargetIsPlanned(a, c, gone, s, y);
    PlanMerge(a, c, d, s, y);
    JudgeMerge(a, c, d, gone, s, y);
    SweepMerge(a, c, d, gone, s, y);
  }

  lemma SweptSkip(a: Slots, c: Slots, s: nat)
    requires SweptTo(a, c, s) && s < |a| && s !in Plan(a, s).gone && Live(c, s)
    requires c[s].value.kind == UnreachState || c[s].value.kind == StartState
      || forall y :: 0 <= y && y != s ==> c[s].value.trans != [Transition(None, y)]
    ensures SweptTo(a, c, s + 1)
  {
    SkipIsPlanned(a, c, Plan(a, s).gone, s);
    PlanSkip(a, c, s);
    SweepSkip(a, c, Plan(a, s).gone, s);
  }

  /** One state of the sweep. */
  method SweepOne(am: Automaton, ghost a: Slots, s: nat)
    requires am.Valid() && Backlinked(am.states, am.transTo) && s < |am.states| && SweptTo(a, am.states, s)
    modifies am`states, am`transTo
    ensures am.Valid() && Backlinked(am.states, am.transTo)
    ensures |am.states| == |old(am.states)| && SweptTo(a, am.states, s + 1)
  {
    ghost var c := am.states;
    assert Live(c, s) && s !in Plan(a, s).gone;
    var target := SimpleTarget(am, s);
    if target.Some? {
      assert Has(c, s, Transition(None, target.value));
      MergeState(am, s, target.value);
      SweptMerge(a, c, am.states, s, target.value);
    } else {
      SweptSkip(a, c, s);
    }
  }

  /** The program merges s into y exactly as the plan says. */
  lemma TargetIsPlanned(a: Slots, c: Slots, gone: set<int>, s: nat, y: int)
    requires s < |a| && Planned(a, c, s) && gone == Plan(a, s).gone && Swept(a, c, gone, s) && s !in gone
    requires Live(c, s) && c[s].value.trans == [Transition(None, y)] && 0 <= y && y != s
    requires c[s].value.kind != StartState
    ensures Merges(a, Plan(a, s), s, y) && SimpleTo(a, s, y) && y !in gone
    ensures Live(a, s) && (IsFinal(a, s) ==> IsFinal(c, s))
  {
    assert Has(c, s, Transition(None, y)) && Live(a, s);
  }

  lemma SkipIsPlanned(a: Slots, c: Slots, gone: set<int>, s: nat)
    requires s < |a| && Planned(a, c, s) && gone == Plan(a, s).gone && Swept(a, c, gone, s) && s !in gone
    requires Live(c, s)
    requires c[s].value.kind == UnreachState || c[s].value.kind == StartState
      || forall y :: 0 <= y && y != s ==> c[s].value.trans != [Transition(None, y)]
    ensures forall y :: !Merges(a, Plan(a, s), s, y)
  {
    assert Live(a, s);
  }

  lemma SweepIsExact(a: Slots, c: Slots, gone: set<int>)
    requires Judged(a, c, gone)
    ensures FinalsCovered(a, gone) <==> SameElsewhere(a, c, gone)
  {
    if !FinalsCovered(a, gone) {
      var u :| u !in gone && FinalInClosure(c, u) && !FinalInClosure(a, u);
      var m: Matcher := (atom, symbol) => true;
      EmptyWordIsClosure(a, m, u);
      EmptyWordIsClosure(c, m, u);
      assert Accepts(c, m, u, []) && !Accepts(a, m, u, []);
      assert !SameExcept(a, c, m, gone);
    }
  }

  /** Once the merged states are freed, the transitions left lead to live states. */
  lemma FreeingKeepsLinks(a: Slots, c: Slots, d: Slots, gone: set<int>)
    requires Swept(a, c, gone, |c|) && TargetsInRange(c) && SweepKeepsShape(a, c)
    requires Pruned(c, d, set q | 0 <= q < |d| && q !in gone)
    ensures forall n: nat :: Linked(a, n) ==> Linked(d, n)
    ensures NoSinks(a) ==> SinksAreEmpty(d)
  {
    forall n: nat, q, t | Linked(a, n) && Live(d, q) && Has(d, q, t) && t.atom.Some?
      ensures t.atom.value < n && (t.to == -1 || Live(d, t.to))
    {
      LinkedIsKnown(a, n);
      assert Live(c, q) && Has(c, q, t) && KnownAtoms(c[q].value.trans, n);
      assert t.to >= 0 ==> Live(c, t.to) && t.to !in gone;
    }
    forall q | NoSinks(a) && Live(d, q)
      ensures d[q].value.kind != SinkState
    {
      assert Live(c, q);
    }
  }

  lemma LinkedIsKnown(a: Slots, n: nat)
    requires Linked(a, n)
    ensures AllKnown(a, n)
  {
    forall q, t | Live(a, q) && t in a[q].value.trans && t.atom.Some?
      ensures t.atom.value < n && t.to >= -1
    {
      assert Has(a, q, t);
    }
  }

  /** Frees the states the sweep merged away; no live transition leads to them. */
  method FreeMerged(am: Automaton, ghost a: Slots, ghost gone: set<int>)
    requires am.Valid() && Swept(a, am.states, gone, |am.states|)
    modifies am`states
    ensures am.Valid()
    ensures Pruned(old(am.states), am.states, set q | 0 <= q < |am.states| && q !in gone)
  {
    ghost var c := am.states;
    for s := 0 to |am.states|
      invariant |am.states| == |c|
      invariant forall q :: 0 <= q < s ==> am.states[q] == if q in gone then None else c[q]
      invariant forall q :: s <= q < |c| ==> am.states[q] == c[q]
    {
      assert Live(c, s);
      if am.states[s].Some? && am.states[s].value.kind == UnreachState {
        am.states := am.states[s := None];
      }
    }
    forall q, t | Live(am.states, q) && Has(am.states, q, t)
      ensures t.to < |am.states|
    {
      assert Live(c, q) && Has(c, q, t);
    }
  }

  /** The first state is merged away exactly when it is not marked as a start state and only has a plain epsilon. */
  lemma StartMergedAway(a: Slots)
    requires |a| > 0
    ensures 0 in MergedAway(a) <==> Live(a, 0) && a[0].value.kind != StartState && exists y :: SimpleTo(a, 0, y)
  {
    assert Plan(a, 0).gone == {};
    var p := Plan(a, 0);
    if y :| SimpleTo(a, 0, y) && a[0].value.kind != StartState {
      assert Merges(a, p, 0, y);
    }
    assert 0 in Plan(a, 1).gone <==> exists y :: Merges(a, p, 0, y);
    PlanGrows(a, 1, |a|);
  }

  /**
   * A state that is not marked as a start state is merged away exactly when its only transition is a plain
   * epsilon to another state that was not merged away before it.
   */
  lemma MergedExactly(a: Slots, q: nat)
    requires Live(a, q) && a[q].value.kind != StartState
    ensures q in MergedAway(a) <==>
      exists y :: 0 <= y != q && a[q].value.trans == [Transition(None, y)] && !(y < q && y in MergedAway(a))
  {
    var p := Plan(a, q);
    PlanGrows(a, q, |a|);
    PlanGrows(a, q + 1, |a|);
    GoneBelow(a, q);
    assert q in Plan(a, q + 1).gone <==> exists y :: Merges(a, p, q, y);
    forall y | y >= 0
      ensures Merges(a, p, q, y) <==>
        y != q && a[q].value.trans == [Transition(None, y)] && !(y < q && y in MergedAway(a))
    {
    }
  }

  lemma {:induction false} GoneBelow(a: Slots, s: nat)
    requires s <= |a|
    ensures forall q :: q in Plan(a, s).gone ==> 0 <= q < s
  {
    if s > 0 {
      GoneBelow(a, s - 1);
    }
  }

  /** What happens to a state is decided when the sweep comes to it. */
  lemma {:induction false} PlanGrows(a: Slots, s: nat, t: nat)
    requires s <= t <= |a|
    ensures Plan(a, s).gone <= Plan(a, t).gone
    ensures forall q :: q in Plan(a, t).gone && q < s ==> q in Plan(a, s).gone
  {
    if s < t {
      PlanGrows(a, s, t - 1);
    }
  }

  /** A final first state with a plain epsilon is merged away although the table is safe for the sweep. */
  lemma StartLostExample(m: Matcher)
    ensures var a: Slots := [Some(State(FinalState, [Transition(None, 1)])), Some(State(FinalState, []))];
            SafeSweep(a) && 0 in MergedAway(a) && Accepts(a, m, 0, [])
  {
    var a: Slots := [Some(State(FinalState, [Transition(None, 1)])), Some(State(FinalState, []))];
    assert SimpleTo(a, 0, 1);
    StartMergedAway(a);
    forall x, y | SimpleTo(a, x, y) && IsFinal(a, x)
      ensures Live(a, y) && IsFinal(a, y)
    {
      assert x == 0 && a[0].value.trans[0] == Transition(None, y);
    }
    FinalsLeadToFinalsIsSafe(a);
    AcceptsEmpty(a, m, 0);
  }

  /** What the graph accepted from its first state, it still accepts. */
  ghost predicate KeepsStartWords(a: Slots, b: Slots) {
    forall m: Matcher, w: Word :: Accepts(a, m, 0, w) ==> Accepts(b, m, 0, w)
  }

  /** What the graph accepts from its first state after the elimination. */
  ghost predicate StartJudged(a: Slots, b: Slots) {
    && (0 !in MergedAway(a) ==> Live(b, 0) && KeepsStartWords(a, b) && (SafeSweep(a) ==> SameFromStart(a, b)))
    && (0 in MergedAway(a) ==> AllFreed(b))
  }

  /** Without a first state nothing is accepted. */
  lemma NothingFromFreed(a: Slots, m: Matcher, w: Word)
    requires AllFreed(a)
    ensures !Accepts(a, m, 0, w)
  {
  }

  /** A first state that is final or marked as a start state keeps its words exactly when it is not merged away. */
  lemma StartIsExact(a: Slots, b: Slots)
    requires Live(a, 0) && StartJudged(a, b) && (IsFinal(a, 0) || a[0].value.kind == StartState)
    ensures KeepsStartWords(a, b) <==> 0 !in MergedAway(a)
  {
    if 0 in MergedAway(a) {
      StartMergedAway(a);
      var m: Matcher := (atom, symbol) => true;
      AcceptsEmpty(a, m, 0);
      NothingFromFreed(b, m, []);
    }
  }

  /**
   * The whole elimination. No live epsilon transition is left. The first state loses no word, and accepts
   * exactly the same ones if the initial table is safe for the sweep, unless it is merged away itself: then
   * nothing is left.
   */
  method EliminateEpsilonTransitions(am: Automaton)
    requires am.Valid() && Fresh(am.states, am.transTo) && AllNormal(am.marks) && |am.states| > 0
    modifies am
    ensures am.Valid() && |am.states| == |old(am.states)| && NoEpsilon(am.states) && AllReached(am.states)
    ensures forall q :: q in MergedAway(old(am.states)) ==> !Live(am.states, q)
    ensures StartJudged(old(am.states), am.states)
    ensures forall n: nat :: Linked(old(am.states), n) ==> Linked(am.states, n)
    ensures NoSinks(old(am.states)) ==> SinksAreEmpty(am.states)
  {
    ghost var a := am.states;
    ghost var gone := MergedAway(a);
    assert Live(a, 0);
    EliminateSimpleEpsilons(am);
    ghost var c := am.states;
    FreeMerged(am, a, gone);
    ghost var d := am.states;
    FreeingKeepsLinks(a, c, d, gone);
    am.CloseEpsilonTransitions();
    if 0 !in gone {
      WholeKeepsStart(a, c, d, am.states, gone);
    }
  }

  lemma WholeKeepsStart(a: Slots, c: Slots, d: Slots, e: Slots, gone: set<int>)
    requires KeepsWords(a, c, gone) && 0 !in gone && |c| > 0
    requires Pruned(c, d, set q | 0 <= q < |d| && q !in gone)
    requires SameFromStart(d, e)
    ensures KeepsStartWords(a, e)
    ensures SameElsewhere(a, c, gone) ==> SameFromStart(a, e)
  {
    forall m: Matcher, w: Word
      ensures Accepts(a, m, 0, w) ==> Accepts(e, m, 0, w)
      ensures SameElsewhere(a, c, gone) ==> (Accepts(a, m, 0, w) <==> Accepts(e, m, 0, w))
    {
      assert SameElsewhere(a, c, gone) ==> SameExcept(a, c, m, gone);
      PruningKeepsLanguage(c, d, m, set q | 0 <= q < |d| && q !in gone, 0);
    }
  }
}
