/** Word automata with epsilon transitions, as a table of state slots, and their languages. */
module Automata {
  import opened Results

  /** Atoms are compared by identity only; which symbols an atom accepts is a parameter. */
  type Atom = nat
  type Symbol = nat
  type Word = seq<Symbol>
  type Matcher = (Atom, Symbol) -> bool

  datatype Kind = StartState | FinalState | TransState | SinkState | UnreachState

  /** An epsilon transition has no atom; a negative target marks a removed transition. */
  datatype Transition = Transition(atom: Option<Atom>, to: int)

  datatype State = State(kind: Kind, trans: seq<Transition>)

  /** None is a freed slot. */
  type Slots = seq<Option<State>>

  ghost predicate Live(a: Slots, q: int) {
    0 <= q < |a| && a[q].Some?
  }

  ghost predicate IsFinal(a: Slots, q: int)
    requires Live(a, q)
  {
    a[q].value.kind.FinalState?
  }

  ghost predicate Has(a: Slots, q: int, t: Transition)
    requires Live(a, q)
  {
    t in a[q].value.trans
  }

  /** A run from q over the transitions of `path` that reads w and ends in a final state. */
  ghost predicate Run(a: Slots, m: Matcher, q: int, w: Word, path: seq<Transition>)
    decreases |path|
  {
    && Live(a, q)
    && if path == [] then w == [] && IsFinal(a, q)
       else
         var t := path[0];
         && Has(a, q, t)
         && if t.atom == None then Run(a, m, t.to, w, path[1..])
            else w != [] && m(t.atom.value, w[0]) && Run(a, m, t.to, w[1..], path[1..])
  }

  ghost predicate Accepts(a: Slots, m: Matcher, q: int, w: Word) {
    exists path :: Run(a, m, q, w, path)
  }

  ghost predicate SameLanguage(a: Slots, b: Slots, m: Matcher) {
    forall q, w :: Accepts(a, m, q, w) <==> Accepts(b, m, q, w)
  }

  lemma SameLanguageTransitive(a: Slots, b: Slots, c: Slots, m: Matcher)
    requires SameLanguage(a, b, m) && SameLanguage(b, c, m)
    ensures SameLanguage(a, c, m)
  {
  }

  lemma AcceptsByEpsilon(a: Slots, m: Matcher, q: int, to: int, w: Word)
    requires Live(a, q) && Has(a, q, Transition(None, to)) && Accepts(a, m, to, w)
    ensures Accepts(a, m, q, w)
  {
    var path :| Run(a, m, to, w, path);
    var t := Transition(None, to);
    assert ([t] + path)[1..] == path;
    assert Run(a, m, q, w, [t] + path);
  }

  lemma AcceptsByAtom(a: Slots, m: Matcher, q: int, t: Transition, w: Word)
    requires Live(a, q) && t.atom.Some? && Has(a, q, t)
    requires w != [] && m(t.atom.value, w[0]) && Accepts(a, m, t.to, w[1..])
    ensures Accepts(a, m, q, w)
  {
    var path :| Run(a, m, t.to, w[1..], path);
    assert ([t] + path)[1..] == path;
    assert Run(a, m, q, w, [t] + path);
  }

  lemma AcceptsEmpty(a: Slots, m: Matcher, q: int)
    requires Live(a, q) && IsFinal(a, q)
    ensures Accepts(a, m, q, [])
  {
    assert Run(a, m, q, [], []);
  }

  /** Either transition kind, in one step. */
  lemma AcceptsByStep(a: Slots, m: Matcher, q: int, t: Transition, w: Word)
    requires Live(a, q) && Has(a, q, t)
    requires if t.atom == None then Accepts(a, m, t.to, w)
             else w != [] && m(t.atom.value, w[0]) && Accepts(a, m, t.to, w[1..])
    ensures Accepts(a, m, q, w)
  {
    if t.atom == None {
      assert t == Transition(None, t.to);
      AcceptsByEpsilon(a, m, q, t.to, w);
    } else {
      AcceptsByAtom(a, m, q, t, w);
    }
  }

  /** A walk along live epsilon transitions. */
  ghost predicate EpsilonPath(a: Slots, p: seq<int>) {
    && |p| > 0
    && (forall i :: 0 <= i < |p| ==> Live(a, p[i]))
    && (forall i :: 0 <= i < |p| - 1 ==> Has(a, p[i], Transition(None, p[i + 1])))
  }

  ghost predicate Reaches(a: Slots, q: int, u: int) {
    exists p :: EpsilonPath(a, p) && p[0] == q && p[|p| - 1] == u
  }

  lemma ReachesItself(a: Slots, q: int)
    requires Live(a, q)
    ensures Reaches(a, q, q)
  {
    assert EpsilonPath(a, [q]);
  }

  lemma ReachesFurther(a: Slots, q: int, u: int, v: int)
    requires Reaches(a, q, u) && Live(a, v) && Has(a, u, Transition(None, v))
    ensures Reaches(a, q, v)
  {
    var p :| EpsilonPath(a, p) && p[0] == q && p[|p| - 1] == u;
    assert EpsilonPath(a, p + [v]);
  }

  lemma {:induction false} AcceptsBackAlong(a: Slots, m: Matcher, p: seq<int>, w: Word)
    requires EpsilonPath(a, p) && Accepts(a, m, p[|p| - 1], w)
    ensures Accepts(a, m, p[0], w)
  {
    if |p| > 1 {
      AcceptsBackAlong(a, m, p[1..], w);
      AcceptsByEpsilon(a, m, p[0], p[1], w);
    }
  }

  ghost predicate Simple(p: seq<int>) {
    forall i, j :: 0 <= i < j < |p| ==> p[i] != p[j]
  }

  /** A walk can be shortened to one without repeated states. */
  lemma {:induction false} SimplePath(a: Slots, p: seq<int>) returns (s: seq<int>)
    requires EpsilonPath(a, p)
    ensures EpsilonPath(a, s) && Simple(s) && s[0] == p[0] && s[|s| - 1] == p[|p| - 1]
    decreases |p|
  {
    if i, j :| 0 <= i < j < |p| && p[i] == p[j] {
      var shorter := p[..i] + p[j..];
      assert EpsilonPath(a, shorter) by {
        forall k | 0 <= k < |shorter| - 1
          ensures Has(a, shorter[k], Transition(None, shorter[k + 1]))
        {
          if k < i {
            assert Has(a, p[k], Transition(None, p[k + 1]));
          } else {
            assert Has(a, p[j + (k - i)], Transition(None, p[j + (k - i) + 1]));
          }
        }
      }
      s := SimplePath(a, shorter);
    } else {
      s := p;
    }
  }

  /** What state s has after its epsilon transitions were replaced by copies of what they lead to. */
  ghost predicate Closed(a: Slots, b: Slots, s: int) {
    && |a| == |b| && Live(a, s) && Live(b, s)
    && (forall q :: 0 <= q < |a| && q != s ==> a[q] == b[q])
    && (forall t :: Has(b, s, t) && t.atom == None ==> t.to < 0)
    && (forall t :: Has(b, s, t) && t.atom != None ==> FromClosure(a, s, t))
    && (b[s].value.kind == SinkState && (a[s].value.kind == SinkState ==> a[s].value.trans == []) ==>
      b[s].value.trans == [])
    && (IsFinal(b, s) ==> FinalInClosure(a, s))
    && (forall u :: Reaches(a, s, u) ==> Copied(a, b, s, u))
  }

  ghost predicate FromClosure(a: Slots, s: int, t: Transition) {
    exists u :: Reaches(a, s, u) && Live(a, u) && Has(a, u, t)
  }

  ghost predicate FinalInClosure(a: Slots, s: int) {
    exists u :: Reaches(a, s, u) && Live(a, u) && IsFinal(a, u)
  }

  /** Everything u offers to a word, s offers too. */
  ghost predicate Copied(a: Slots, b: Slots, s: int, u: int)
    requires Live(b, s)
  {
    && Live(a, u)
    && (IsFinal(a, u) ==> IsFinal(b, s))
    && (forall t :: Has(a, u, t) && t.atom != None && Live(a, t.to) ==> Has(b, s, t))
  }

  lemma {:induction false} ClosedKeepsRuns(a: Slots, b: Slots, m: Matcher, s: int, q: int, w: Word,
                                           path: seq<Transition>)
    requires Closed(a, b, s) && Run(a, m, q, w, path)
    ensures Accepts(b, m, q, w)
    decreases |path|, 1
  {
    if q == s {
      ReachesItself(a, s);
      ClosedKeepsRunsFrom(a, b, m, s, s, w, path);
    } else if path == [] {
      AcceptsEmpty(b, m, q);
    } else {
      var t := path[0];
      ClosedKeepsRuns(a, b, m, s, t.to, if t.atom == None then w else w[1..], path[1..]);
      AcceptsByStep(b, m, q, t, w);
    }
  }

  /** A run that starts anywhere in the closure of s can start in s itself afterwards. */
  lemma {:induction false} ClosedKeepsRunsFrom(a: Slots, b: Slots, m: Matcher, s: int, u: int, w: Word,
                                               path: seq<Transition>)
    requires Closed(a, b, s) && Reaches(a, s, u) && Run(a, m, u, w, path)
    ensures Accepts(b, m, s, w)
    decreases |path|, 0
  {
    assert Copied(a, b, s, u);
    if path == [] {
      AcceptsEmpty(b, m, s);
    } else {
      var t := path[0];
      if t.atom == None {
        assert t == Transition(None, t.to);
        ReachesFurther(a, s, u, t.to);
        ClosedKeepsRunsFrom(a, b, m, s, t.to, w, path[1..]);
      } else {
        assert Has(b, s, t);
        ClosedKeepsRuns(a, b, m, s, t.to, w[1..], path[1..]);
        AcceptsByAtom(b, m, s, t, w);
      }
    }
  }

  lemma {:induction false} ClosedAddsNoRuns(a: Slots, b: Slots, m: Matcher, s: int, q: int, w: Word,
                                            path: seq<Transition>)
    requires Closed(a, b, s) && Run(b, m, q, w, path)
    ensures Accepts(a, m, q, w)
    decreases |path|
  {
    if path == [] {
      if q == s {
        var u :| Reaches(a, s, u) && Live(a, u) && IsFinal(a, u);
        AcceptsEmpty(a, m, u);
        var p :| EpsilonPath(a, p) && p[0] == s && p[|p| - 1] == u;
        AcceptsBackAlong(a, m, p, []);
      } else {
        AcceptsEmpty(a, m, q);
      }
    } else {
      var t := path[0];
      ClosedAddsNoRuns(a, b, m, s, t.to, if t.atom == None then w else w[1..], path[1..]);
      if q == s {
        assert FromClosure(a, s, t);
        var u :| Reaches(a, s, u) && Live(a, u) && Has(a, u, t);
        AcceptsByStep(a, m, u, t, w);
        var p :| EpsilonPath(a, p) && p[0] == s && p[|p| - 1] == u;
        AcceptsBackAlong(a, m, p, w);
      } else {
        AcceptsByStep(a, m, q, t, w);
      }
    }
  }

  /** Replacing the epsilon transitions of one state by what they lead to changes no language. */
  lemma ClosingKeepsLanguages(a: Slots, b: Slots, m: Matcher, s: int)
    requires Closed(a, b, s)
    ensures SameLanguage(a, b, m)
  {
    forall q, w
      ensures Accepts(a, m, q, w) <==> Accepts(b, m, q, w)
    {
      if path :| Run(a, m, q, w, path) {
        ClosedKeepsRuns(a, b, m, s, q, w, path);
      }
      if path :| Run(b, m, q, w, path) {
        ClosedAddsNoRuns(a, b, m, s, q, w, path);
      }
    }
  }

  /** Every atom is one of the first n, and every atom transition is removed or leads to a live state. */
  ghost predicate Linked(a: Slots, n: nat) {
    forall q, t :: Live(a, q) && Has(a, q, t) && t.atom.Some? ==> t.atom.value < n && (t.to == -1 || Live(a, t.to))
  }

  /** Sinks have no transitions. */
  ghost predicate SinksAreEmpty(a: Slots) {
    forall q :: Live(a, q) && a[q].value.kind == SinkState ==> a[q].value.trans == []
  }

  lemma ClosedKeepsLinks(a: Slots, b: Slots, s: int, n: nat)
    requires Closed(a, b, s) && Linked(a, n)
    ensures Linked(b, n)
  {
    forall q, t | Live(b, q) && Has(b, q, t) && t.atom.Some?
      ensures t.atom.value < n && (t.to == -1 || Live(b, t.to))
    {
      if q == s {
        var u :| Reaches(a, s, u) && Live(a, u) && Has(a, u, t);
      } else {
        assert Live(a, q) && Has(a, q, t);
      }
    }
  }

  /** No live epsilon transition leaves q. */
  ghost predicate NoEpsilonAt(a: Slots, q: int) {
    Live(a, q) ==> forall t :: Has(a, q, t) && t.atom == None ==> t.to < 0
  }

  ghost predicate NoEpsilon(a: Slots) {
    forall q :: 0 <= q < |a| ==> NoEpsilonAt(a, q)
  }

  ghost predicate LeadsTo(a: Slots, q: int, u: int) {
    Live(a, q) && exists t :: Has(a, q, t) && t.to == u
  }

  /** A walk from the first state over live states. */
  ghost predicate Walk(a: Slots, p: seq<int>) {
    && p != [] && p[0] == 0
    && (forall i :: 0 <= i < |p| ==> Live(a, p[i]))
    && (forall i :: 0 < i < |p| ==> LeadsTo(a, p[i - 1], p[i]))
  }

  /** Every live state is reached from the first one. */
  ghost predicate AllReached(a: Slots) {
    forall q :: Live(a, q) ==> exists p :: Walk(a, p) && p[|p| - 1] == q
  }

  /** b keeps the slots of a that are in `kept`, and `kept` is closed under live transitions. */
  ghost predicate Pruned(a: Slots, b: Slots, kept: set<int>) {
    && |a| == |b|
    && (forall q :: 0 <= q < |a| ==> b[q] == if q in kept then a[q] else None)
    && (forall q, t :: q in kept && Live(a, q) && Has(a, q, t) && Live(a, t.to) ==> t.to in kept)
  }

  lemma PruningKeepsLinks(a: Slots, b: Slots, kept: set<int>, n: nat)
    requires Pruned(a, b, kept) && Linked(a, n)
    ensures Linked(b, n)
  {
    forall q, t | Live(b, q) && Has(b, q, t) && t.atom.Some?
      ensures t.atom.value < n && (t.to == -1 || Live(b, t.to))
    {
      assert Live(a, q) && Has(a, q, t);
    }
  }

  lemma {:induction false} PruningKeepsRuns(a: Slots, b: Slots, m: Matcher, kept: set<int>, q: int, w: Word,
                                            path: seq<Transition>)
    requires Pruned(a, b, kept) && q in kept && Run(a, m, q, w, path)
    ensures Run(b, m, q, w, path)
    decreases |path|
  {
    if path != [] {
      var t := path[0];
      assert Has(a, q, t) && Live(a, t.to);
      PruningKeepsRuns(a, b, m, kept, t.to, if t.atom == None then w else w[1..], path[1..]);
    }
  }

  lemma {:induction false} PruningAddsNoRuns(a: Slots, b: Slots, m: Matcher, kept: set<int>, q: int, w: Word,
                                             path: seq<Transition>)
    requires Pruned(a, b, kept) && Run(b, m, q, w, path)
    ensures Run(a, m, q, w, path)
    decreases |path|
  {
    if path != [] {
      var t := path[0];
      PruningAddsNoRuns(a, b, m, kept, t.to, if t.atom == None then w else w[1..], path[1..]);
    }
  }

  /** Freeing states that a kept state cannot reach does not change the language of the kept state. */
  lemma PruningKeepsLanguage(a: Slots, b: Slots, m: Matcher, kept: set<int>, q: int)
    requires Pruned(a, b, kept) && q in kept
    ensures forall w :: Accepts(a, m, q, w) <==> Accepts(b, m, q, w)
  {
    forall w
      ensures Accepts(a, m, q, w) <==> Accepts(b, m, q, w)
    {
      if path :| Run(a, m, q, w, path) {
        PruningKeepsRuns(a, b, m, kept, q, w, path);
      }
      if path :| Run(b, m, q, w, path) {
        PruningAddsNoRuns(a, b, m, kept, q, w, path);
      }
    }
  }
}
