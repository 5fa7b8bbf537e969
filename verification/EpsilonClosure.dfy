/** Replacing epsilon transitions, state by state, by copies of the transitions they lead to. */
module EpsilonClosure {
  import opened Sets
  import opened Results
  import opened Automata

  datatype Mark = Normal | Start | Visited

  ghost function AddedTrans(trans: seq<Transition>, t: Transition): seq<Transition> {
    if t in trans then trans else trans + [t]
  }

  ghost function WithTrans(a: Slots, q: int, trans: seq<Transition>): Slots
    requires Live(a, q)
  {
    a[q := Some(State(a[q].value.kind, trans))]
  }

  ghost function WithKind(a: Slots, q: int, kind: Kind): Slots
    requires Live(a, q)
  {
    a[q := Some(State(kind, a[q].value.trans))]
  }

  /** From g to h only state `from` changed: it gained atom transitions, or became final. */
  ghost predicate Grew(g: Slots, h: Slots, from: int) {
    && |g| == |h| && Live(g, from) && Live(h, from)
    && (forall q :: 0 <= q < |g| && q != from ==> g[q] == h[q])
    && g[from].value.trans <= h[from].value.trans
    && (forall k :: |g[from].value.trans| <= k < |h[from].value.trans| ==> h[from].value.trans[k].atom != None)
    && (h[from].value.kind == g[from].value.kind || IsFinal(h, from))
  }

  lemma GrewTransitive(g: Slots, h: Slots, i: Slots, from: int)
    requires Grew(g, h, from) && Grew(h, i, from)
    ensures Grew(g, i, from)
  {
  }

  lemma CopiedMonotone(g: Slots, h: Slots, i: Slots, from: int, u: int)
    requires Grew(h, i, from) && Copied(g, h, from, u)
    ensures Copied(g, i, from, u)
  {
    forall t | Has(g, u, t) && t.atom != None && Live(g, t.to)
      ensures Has(i, from, t)
    {
      var k :| 0 <= k < |h[from].value.trans| && h[from].value.trans[k] == t;
      assert i[from].value.trans[k] == t;
    }
  }

  /** A walk without repetitions from x that meets no marked state. */
  ghost predicate FreeWalk(g: Slots, marks: seq<Mark>, x: int, p: seq<int>) {
    && |marks| == |g|
    && EpsilonPath(g, p) && Simple(p) && p[0] == x
    && forall i :: 0 <= i < |p| ==> marks[p[i]] == Normal
  }

  /** Some walk from x that avoids `from` ends in u. */
  ghost predicate ReachesAround(g: Slots, from: int, x: int, u: int) {
    exists p :: EpsilonPath(g, p) && p[0] == x && p[|p| - 1] == u && from !in p
  }

  ghost predicate FromAround(g: Slots, from: int, x: int, t: Transition) {
    exists u :: ReachesAround(g, from, x, u) && Live(g, u) && Has(g, u, t)
  }

  ghost predicate FinalAround(g: Slots, from: int, x: int) {
    exists u :: ReachesAround(g, from, x, u) && Live(g, u) && IsFinal(g, u)
  }

  /** Only what lies around is added. */
  ghost predicate AddsOnly(g: Slots, h: Slots, from: int, x: int) {
    && Live(g, from) && Live(h, from)
    && (forall t :: Has(h, from, t) ==> Has(g, from, t) || FromAround(g, from, x, t))
    && (IsFinal(h, from) ==> IsFinal(g, from) || FinalAround(g, from, x))
  }

  /** Everything at the end of a free walk was copied. */
  ghost predicate CopiesAll(g: Slots, h: Slots, marks: seq<Mark>, from: int, x: int) {
    Live(h, from) && forall p :: FreeWalk(g, marks, x, p) ==> Copied(g, h, from, p[|p| - 1])
  }

  lemma WalkIgnoresFrom(g: Slots, h: Slots, from: int, p: seq<int>)
    requires Grew(g, h, from) && from !in p
    ensures EpsilonPath(g, p) <==> EpsilonPath(h, p)
  {
    assert forall i :: 0 <= i < |p| ==> p[i] != from;
  }

  lemma AroundIgnoresFrom(g: Slots, h: Slots, from: int, x: int, u: int)
    requires Grew(g, h, from) && ReachesAround(h, from, x, u)
    ensures ReachesAround(g, from, x, u) && u != from && Live(g, u) && g[u] == h[u]
  {
    var p :| EpsilonPath(h, p) && p[0] == x && p[|p| - 1] == u && from !in p;
    WalkIgnoresFrom(g, h, from, p);
    assert u in p;
  }

  lemma AroundPrepend(g: Slots, from: int, x: int, y: int, u: int)
    requires Live(g, x) && x != from && Has(g, x, Transition(None, y))
    requires ReachesAround(g, from, y, u)
    ensures ReachesAround(g, from, x, u)
  {
    var p :| EpsilonPath(g, p) && p[0] == y && p[|p| - 1] == u && from !in p;
    assert EpsilonPath(g, [x] + p);
  }

  /** A recursive call from x through an epsilon transition to y adds only what lies around x. */
  lemma AddsThrough(g: Slots, h: Slots, i: Slots, from: int, x: int, y: int)
    requires Grew(g, h, from) && AddsOnly(g, h, from, x) && Grew(h, i, from) && AddsOnly(h, i, from, y)
    requires Live(g, x) && x != from && Has(g, x, Transition(None, y))
    ensures AddsOnly(g, i, from, x)
  {
    forall t | Has(i, from, t) && !Has(g, from, t)
      ensures FromAround(g, from, x, t)
    {
      if !Has(h, from, t) {
        var u :| ReachesAround(h, from, y, u) && Live(h, u) && Has(h, u, t);
        AroundIgnoresFrom(g, h, from, y, u);
        AroundPrepend(g, from, x, y, u);
      }
    }
    if IsFinal(i, from) && !IsFinal(g, from) {
      if !IsFinal(h, from) {
        var u :| ReachesAround(h, from, y, u) && Live(h, u) && IsFinal(h, u);
        AroundIgnoresFrom(g, h, from, y, u);
        AroundPrepend(g, from, x, y, u);
      }
    }
  }

  lemma AroundItself(g: Slots, from: int, x: int)
    requires Live(g, x) && x != from
    ensures ReachesAround(g, from, x, x)
  {
    assert EpsilonPath(g, [x]);
  }

  /** The first k transitions of x have been dealt with. */
  ghost predicate DoneUpTo(g: Slots, h: Slots, marks: seq<Mark>, from: int, x: int, k: int) {
    && Live(g, x) && 0 <= k <= |g[x].value.trans|
    && |marks| == |g|
    && (forall i :: 0 <= i < k ==> TransitionDone(g, h, marks, from, x, g[x].value.trans[i]))
  }

  /** An atom transition was copied; behind an epsilon transition every free walk was. */
  ghost predicate TransitionDone(g: Slots, h: Slots, marks: seq<Mark>, from: int, x: int, t: Transition) {
    Live(h, from) && |marks| == |g| &&
    if t.atom != None then Live(g, t.to) ==> Has(h, from, t)
    else 0 <= x < |g| ==> CopiesAll(g, h, marks[x := Visited], from, t.to)
  }

  lemma TransitionStaysDone(g: Slots, h: Slots, i: Slots, marks: seq<Mark>, from: int, x: int, t: Transition)
    requires TransitionDone(g, h, marks, from, x, t) && Grew(h, i, from)
    ensures TransitionDone(g, i, marks, from, x, t)
  {
    if t.atom != None {
      if Live(g, t.to) {
        var k :| 0 <= k < |h[from].value.trans| && h[from].value.trans[k] == t;
        assert i[from].value.trans[k] == t;
      }
    } else if 0 <= x < |g| {
      forall p | FreeWalk(g, marks[x := Visited], t.to, p)
        ensures Copied(g, i, from, p[|p| - 1])
      {
        CopiedMonotone(g, h, i, from, p[|p| - 1]);
      }
    }
  }

  lemma DoneStays(g: Slots, h: Slots, i: Slots, marks: seq<Mark>, from: int, x: int, k: int)
    requires DoneUpTo(g, h, marks, from, x, k) && Grew(h, i, from)
    ensures DoneUpTo(g, i, marks, from, x, k)
  {
    forall j | 0 <= j < k
      ensures TransitionDone(g, i, marks, from, x, g[x].value.trans[j])
    {
      TransitionStaysDone(g, h, i, marks, from, x, g[x].value.trans[j]);
    }
  }

  /** What a recursive call copied, seen from the slots before it. */
  lemma CopiesAllEarlier(g: Slots, h: Slots, i: Slots, marks: seq<Mark>, from: int, y: int)
    requires Grew(g, h, from) && Grew(h, i, from) && CopiesAll(h, i, marks, from, y)
    requires 0 <= from < |marks| && marks[from] != Normal && |marks| == |g|
    ensures CopiesAll(g, i, marks, from, y)
  {
    forall p | FreeWalk(g, marks, y, p)
      ensures Copied(g, i, from, p[|p| - 1])
    {
      assert from !in p;
      WalkIgnoresFrom(g, h, from, p);
      assert FreeWalk(h, marks, y, p);
      var u := p[|p| - 1];
      assert u in p;
      assert Copied(h, i, from, u);
    }
  }

  /** All transitions of x done: every free walk from x is covered. */
  lemma AllDone(g: Slots, h: Slots, marks: seq<Mark>, from: int, x: int)
    requires Live(g, x) && Live(h, from)
    requires DoneUpTo(g, h, marks, from, x, |g[x].value.trans|)
    requires IsFinal(g, x) ==> IsFinal(h, from)
    ensures CopiesAll(g, h, marks, from, x)
  {
    forall p | FreeWalk(g, marks, x, p)
      ensures Copied(g, h, from, p[|p| - 1])
    {
      if |p| == 1 {
        forall t | Has(g, x, t) && t.atom != None && Live(g, t.to)
          ensures Has(h, from, t)
        {
          var k :| 0 <= k < |g[x].value.trans| && g[x].value.trans[k] == t;
          assert TransitionDone(g, h, marks, from, x, t);
        }
      } else {
        var t := Transition(None, p[1]);
        assert Has(g, p[0], t);
        var k :| 0 <= k < |g[x].value.trans| && g[x].value.trans[k] == t;
        assert TransitionDone(g, h, marks, from, x, t);
        var rest := p[1..];
        assert EpsilonPath(g, rest) by {
          forall i | 0 <= i < |rest| - 1
            ensures Has(g, rest[i], Transition(None, rest[i + 1]))
          {
            assert Has(g, p[i + 1], Transition(None, p[i + 2]));
          }
        }
        assert FreeWalk(g, marks[x := Visited], p[1], rest);
        assert rest[|rest| - 1] == p[|p| - 1];
      }
    }
  }

  ghost function Unmarked(marks: seq<Mark>): set<int> {
    set i | 0 <= i < |marks| && marks[i] == Normal
  }

  lemma MarkingShrinks(marks: seq<Mark>, x: int)
    requires 0 <= x < |marks| && marks[x] == Normal
    ensures |Unmarked(marks[x := Visited])| < |Unmarked(marks)|
  {
    var after := Unmarked(marks[x := Visited]);
    assert Unmarked(marks) == after + {x};
    assert x !in after;
  }

  /** The situation while the transitions of x are scanned: k of them are done. */
  ghost predicate Scanning(g: Slots, h: Slots, marks: seq<Mark>, from: int, x: int, k: int) {
    && 0 <= from < |marks| && marks[from] != Normal && x != from
    && Grew(g, h, from) && Live(g, x) && AddsOnly(g, h, from, x)
    && (IsFinal(g, x) ==> IsFinal(h, from))
    && DoneUpTo(g, h, marks, from, x, k)
  }

  lemma ScanEpsilon(g: Slots, h: Slots, i: Slots, marks: seq<Mark>, from: int, x: int, k: int)
    requires Scanning(g, h, marks, from, x, k) && k < |g[x].value.trans|
    requires var t := g[x].value.trans[k];
             && t.atom == None && Grew(h, i, from) && AddsOnly(h, i, from, t.to)
             && CopiesAll(h, i, marks[x := Visited], from, t.to)
    ensures Scanning(g, i, marks, from, x, k + 1)
  {
    var t := g[x].value.trans[k];
    assert t == Transition(None, t.to) && Has(g, x, t);
    GrewTransitive(g, h, i, from);
    AddsThrough(g, h, i, from, x, t.to);
    CopiesAllEarlier(g, h, i, marks[x := Visited], from, t.to);
    DoneStays(g, h, i, marks, from, x, k);
  }

  lemma ScanAtom(g: Slots, h: Slots, marks: seq<Mark>, from: int, x: int, k: int)
    requires Scanning(g, h, marks, from, x, k) && k < |g[x].value.trans|
    requires g[x].value.trans[k].atom != None
    ensures var t := g[x].value.trans[k];
            if Live(h, t.to)
            then Scanning(g, WithTrans(h, from, AddedTrans(h[from].value.trans, t)), marks, from, x, k + 1)
            else Scanning(g, h, marks, from, x, k + 1)
  {
    var t := g[x].value.trans[k];
    if Live(h, t.to) {
      var i := WithTrans(h, from, AddedTrans(h[from].value.trans, t));
      assert Grew(h, i, from);
      GrewTransitive(g, h, i, from);
      DoneStays(g, h, i, marks, from, x, k);
      AroundItself(g, from, x);
      assert Has(g, x, t);
      assert FromAround(g, from, x, t);
      assert Has(i, from, t) by {
        assert t in AddedTrans(h[from].value.trans, t);
      }
      assert forall t' :: Has(i, from, t') ==> Has(h, from, t') || t' == t;
      assert IsFinal(i, from) == IsFinal(h, from);
    }
  }

  /** An epsilon transition whose target is removed, or is `from` itself, needs nothing. */
  lemma ScanSkip(g: Slots, h: Slots, marks: seq<Mark>, from: int, x: int, k: int)
    requires Scanning(g, h, marks, from, x, k) && k < |g[x].value.trans|
    requires g[x].value.trans[k].to < 0 || (g[x].value.trans[k].atom == None && g[x].value.trans[k].to == from)
    ensures Scanning(g, h, marks, from, x, k + 1)
  {
    assert TransitionDone(g, h, marks, from, x, g[x].value.trans[k]);
  }

  lemma ScanStart(g: Slots, marks: seq<Mark>, from: int, x: int)
    requires 0 <= from < |marks| && marks[from] != Normal && x != from && |marks| == |g|
    requires Live(g, from) && Live(g, x)
    ensures var h := if IsFinal(g, x) then WithKind(g, from, FinalState) else g;
            Scanning(g, h, marks, from, x, 0)
  {
    AroundItself(g, from, x);
  }

  ghost predicate AllNormal(marks: seq<Mark>) {
    forall i :: 0 <= i < |marks| ==> marks[i] == Normal
  }

  /** While state s is being closed: a is the table before, c the current one, and k transitions of s are done. */
  ghost predicate Closing(a: Slots, c: Slots, s: int, k: int) {
    && |a| == |c| && Live(a, s) && Live(c, s)
    && (forall q :: 0 <= q < |a| && q != s ==> a[q] == c[q])
    && ListClosing(a[s].value.trans, c[s].value.trans, k)
    && (forall t :: Has(c, s, t) && t.atom != None ==> FromClosure(a, s, t))
    && (c[s].value.kind == SinkState && (a[s].value.kind == SinkState ==> a[s].value.trans == []) ==>
      c[s].value.trans == [])
    && (IsFinal(c, s) ==> FinalInClosure(a, s))
    && (IsFinal(a, s) ==> IsFinal(c, s))
    && Branches(a, c, s, k)
  }

  /** Among the first k transitions of state s is a live epsilon to another state. */
  ghost predicate LiveEpsilon(trans: seq<Transition>, s: int, k: int) {
    exists j :: 0 <= j < k && j < |trans| && trans[j].atom == None && trans[j].to >= 0 && trans[j].to != s
  }

  lemma NextEpsilon(before: seq<Transition>, now: seq<Transition>, s: int, k: int)
    requires ListClosing(before, now, k) && k < |now|
    ensures LiveEpsilon(before, s, k + 1) <==>
      LiveEpsilon(before, s, k) || (now[k].atom == None && now[k].to >= 0 && now[k].to != s)
  {
    if k < |before| {
      assert now[k] == before[k];
    }
  }

  /** The first k transitions of s are dealt with. */
  ghost predicate Branches(a: Slots, c: Slots, s: int, k: int)
    requires Live(a, s) && Live(c, s)
  {
    forall j :: 0 <= j < k && j < |a[s].value.trans| ==> BranchDone(a, c, s, a[s].value.trans[j])
  }

  /**
   * The list of s keeps its atom transitions in place, loses the epsilon ones it has passed, and grows by
   * atom transitions.
   */
  ghost predicate ListClosing(before: seq<Transition>, now: seq<Transition>, k: int) {
    && |before| <= |now| && 0 <= k <= |now|
    && (forall j :: 0 <= j < |before| && (j >= k || before[j].atom != None) ==> now[j] == before[j])
    && (forall j :: 0 <= j < k && now[j].atom == None ==> now[j].to < 0)
    && (forall j :: |before| <= j < |now| ==> now[j].atom != None)
  }

  /** Everything behind an epsilon transition of s, on walks that do not come back to s, was copied. */
  ghost predicate BranchDone(a: Slots, c: Slots, s: int, t: Transition)
    requires Live(c, s)
  {
    t.atom == None ==> forall p :: WalkAvoiding(a, s, t.to, p) ==> Copied(a, c, s, p[|p| - 1])
  }

  ghost predicate WalkAvoiding(a: Slots, s: int, x: int, p: seq<int>) {
    EpsilonPath(a, p) && Simple(p) && p[0] == x && s !in p
  }

  lemma NoWalkFrom(a: Slots, s: int, x: int)
    requires x < 0 || x == s
    ensures forall p :: !WalkAvoiding(a, s, x, p)
  {
    forall p
      ensures !WalkAvoiding(a, s, x, p)
    {
      assert |p| > 0 ==> p[0] in p;
    }
  }

  lemma ClosingStart(a: Slots, s: int)
    requires Live(a, s)
    ensures Closing(a, a, s, 0)
  {
    ReachesItself(a, s);
  }

  /** A state without transitions that is not final is marked as a sink; its language stays empty. */
  lemma ClosingSink(a: Slots, s: int)
    requires Live(a, s) && a[s].value.trans == [] && !IsFinal(a, s)
    ensures Closing(a, WithKind(a, s, SinkState), s, 0)
  {
  }

  lemma ClosingSkip(a: Slots, c: Slots, s: int, k: int)
    requires Closing(a, c, s, k) && k < |c[s].value.trans|
    requires c[s].value.trans[k].atom != None || c[s].value.trans[k].to < 0
    ensures Closing(a, c, s, k + 1)
  {
    if k < |a[s].value.trans| {
      var t := a[s].value.trans[k];
      if t.atom == None {
        NoWalkFrom(a, s, t.to);
      }
    }
  }

  /** A transition of s that is not live is set aside. */
  ghost function WithTarget(c: Slots, s: int, k: int, to: int): Slots
    requires Live(c, s) && 0 <= k < |c[s].value.trans|
  {
    WithTrans(c, s, c[s].value.trans[k := c[s].value.trans[k].(to := to)])
  }

  lemma AtomsStay(c: Slots, s: int, k: int, to: int)
    requires Live(c, s) && 0 <= k < |c[s].value.trans| && c[s].value.trans[k].atom == None
    ensures var d := WithTarget(c, s, k, to);
            forall t: Transition :: t.atom != None ==> (Has(c, s, t) <==> Has(d, s, t))
  {
    var old', new' := c[s].value.trans, WithTarget(c, s, k, to)[s].value.trans;
    forall t: Transition | t.atom != None
      ensures t in old' <==> t in new'
    {
      if t in old' {
        var j :| 0 <= j < |old'| && old'[j] == t;
        assert new'[j] == t;
      }
      if t in new' {
        var j :| 0 <= j < |new'| && new'[j] == t;
        assert old'[j] == t;
      }
    }
  }

  /** Setting an epsilon transition aside leaves what was copied in place. */
  lemma BranchesStay(a: Slots, c: Slots, d: Slots, s: int, t: Transition)
    requires Live(c, s) && Live(d, s) && BranchDone(a, c, s, t)
    requires forall t': Transition :: t'.atom != None && Has(c, s, t') ==> Has(d, s, t')
    requires IsFinal(c, s) ==> IsFinal(d, s)
    ensures BranchDone(a, d, s, t)
  {
    if t.atom == None {
      forall p | WalkAvoiding(a, s, t.to, p)
        ensures Copied(a, d, s, p[|p| - 1])
      {
        assert Copied(a, c, s, p[|p| - 1]);
      }
    }
  }

  lemma ClosingLoop(a: Slots, c: Slots, s: int, k: int)
    requires Closing(a, c, s, k) && k < |c[s].value.trans|
    requires c[s].value.trans[k] == Transition(None, s)
    ensures Closing(a, WithTarget(c, s, k, -1), s, k + 1)
  {
    var d := WithTarget(c, s, k, -1);
    AtomsStay(c, s, k, -1);
    BranchesRemain(a, c, d, s, k);
    NoWalkFrom(a, s, s);
    OneMoreBranch(a, d, s, k);
  }

  lemma GrewKeepsAtoms(c: Slots, d: Slots, s: int)
    requires Grew(c, d, s)
    ensures forall t :: Has(c, s, t) ==> Has(d, s, t)
    ensures IsFinal(c, s) ==> IsFinal(d, s)
  {
    forall t | Has(c, s, t)
      ensures Has(d, s, t)
    {
      var j :| 0 <= j < |c[s].value.trans| && c[s].value.trans[j] == t;
      assert d[s].value.trans[j] == t;
    }
  }

  lemma AroundIsClosure(a: Slots, d: Slots, s: int, v: int, u: int)
    requires |a| == |d| && Live(a, s) && Has(a, s, Transition(None, v))
    requires forall q :: 0 <= q < |a| && q != s ==> a[q] == d[q]
    requires ReachesAround(d, s, v, u)
    ensures Reaches(a, s, u) && Live(a, u) && u != s && a[u] == d[u]
  {
    var p :| EpsilonPath(d, p) && p[0] == v && p[|p| - 1] == u && s !in p;
    assert forall i :: 0 <= i < |p| ==> p[i] != s;
    assert EpsilonPath(a, [s] + p);
    assert u in p;
  }

  /** One epsilon transition of s, from its removal to the end of the reduction behind it. */
  lemma ClosingStep(a: Slots, c: Slots, d: Slots, e: Slots, marks: seq<Mark>, s: int, k: int)
    requires Closing(a, c, s, k) && k < |c[s].value.trans|
    requires var t := c[s].value.trans[k]; t.atom == None && t.to >= 0 && t.to != s
    requires d == WithTarget(c, s, k, -2)
    requires |marks| == |a| && AllNormal(marks)
    requires var v := c[s].value.trans[k].to;
             Grew(d, e, s) && AddsOnly(d, e, s, v) && CopiesAll(d, e, marks[s := Start], s, v)
    ensures Closing(a, e, s, k + 1)
  {
    var v := c[s].value.trans[k].to;
    assert k < |a[s].value.trans| && a[s].value.trans[k] == Transition(None, v);
    assert Has(a, s, Transition(None, v));
    AtomsStay(c, s, k, -2);
    GrewKeepsAtoms(d, e, s);
    ClosingStepSound(a, c, d, e, s, v);
    BranchesRemain(a, c, e, s, k);
    WalksCopied(a, d, e, marks, s, v);
    OneMoreBranch(a, e, s, k);
  }

  lemma BranchesRemain(a: Slots, c: Slots, d: Slots, s: int, k: int)
    requires Live(a, s) && Live(c, s) && Live(d, s) && Branches(a, c, s, k)
    requires forall t: Transition :: t.atom != None && Has(c, s, t) ==> Has(d, s, t)
    requires IsFinal(c, s) ==> IsFinal(d, s)
    ensures Branches(a, d, s, k)
  {
    forall j | 0 <= j < k && j < |a[s].value.trans|
      ensures BranchDone(a, d, s, a[s].value.trans[j])
    {
      BranchesStay(a, c, d, s, a[s].value.trans[j]);
    }
  }

  lemma OneMoreBranch(a: Slots, d: Slots, s: int, k: int)
    requires Live(a, s) && Live(d, s) && Branches(a, d, s, k)
    requires 0 <= k < |a[s].value.trans| ==> BranchDone(a, d, s, a[s].value.trans[k])
    ensures Branches(a, d, s, k + 1)
  {
  }

  lemma WalksCopied(a: Slots, d: Slots, e: Slots, marks: seq<Mark>, s: int, v: int)
    requires |a| == |d| && |marks| == |a| && AllNormal(marks) && Live(a, s) && Live(d, s)
    requires forall q :: 0 <= q < |a| && q != s ==> a[q] == d[q]
    requires CopiesAll(d, e, marks[s := Start], s, v)
    ensures BranchDone(a, e, s, Transition(None, v))
  {
    forall p | WalkAvoiding(a, s, v, p)
      ensures Copied(a, e, s, p[|p| - 1])
    {
      assert forall i :: 0 <= i < |p| ==> p[i] != s;
      assert FreeWalk(d, marks[s := Start], v, p);
      assert p[|p| - 1] in p;
    }
  }

  lemma ClosingStepSound(a: Slots, c: Slots, d: Slots, e: Slots, s: int, v: int)
    requires |a| == |d| && Live(a, s) && Has(a, s, Transition(None, v))
    requires forall q :: 0 <= q < |a| && q != s ==> a[q] == d[q]
    requires Live(c, s) && Live(d, s) && (forall t: Transition :: t.atom != None && Has(d, s, t) ==> Has(c, s, t))
    requires IsFinal(c, s) == IsFinal(d, s)
    requires forall t :: Has(c, s, t) && t.atom != None ==> FromClosure(a, s, t)
    requires IsFinal(c, s) ==> FinalInClosure(a, s)
    requires AddsOnly(d, e, s, v)
    ensures forall t :: Has(e, s, t) && t.atom != None ==> FromClosure(a, s, t)
    ensures IsFinal(e, s) ==> FinalInClosure(a, s)
  {
    forall t | Has(e, s, t) && t.atom != None
      ensures FromClosure(a, s, t)
    {
      if !Has(d, s, t) {
        var u :| ReachesAround(d, s, v, u) && Live(d, u) && Has(d, u, t);
        AroundIsClosure(a, d, s, v, u);
      }
    }
    if IsFinal(e, s) && !IsFinal(d, s) {
      var u :| ReachesAround(d, s, v, u) && Live(d, u) && IsFinal(d, u);
      AroundIsClosure(a, d, s, v, u);
    }
  }

  /** All transitions of s done: s is closed. */
  lemma ClosingEnd(a: Slots, c: Slots, s: int)
    requires Closing(a, c, s, if Live(c, s) then |c[s].value.trans| else 0)
    ensures Closed(a, c, s)
  {
    forall u | Reaches(a, s, u)
      ensures Copied(a, c, s, u)
    {
      var p :| EpsilonPath(a, p) && p[0] == s && p[|p| - 1] == u;
      var simple := SimplePath(a, p);
      ClosureCopied(a, c, s, simple);
    }
    forall t | Has(c, s, t) && t.atom == None
      ensures t.to < 0
    {
      var j :| 0 <= j < |c[s].value.trans| && c[s].value.trans[j] == t;
    }
  }

  lemma ClosureCopied(a: Slots, c: Slots, s: int, p: seq<int>)
    requires Closing(a, c, s, if Live(c, s) then |c[s].value.trans| else 0)
    requires EpsilonPath(a, p) && Simple(p) && p[0] == s
    ensures Copied(a, c, s, p[|p| - 1])
  {
    if |p| == 1 {
      forall t | Has(a, s, t) && t.atom != None
        ensures Has(c, s, t)
      {
        var j :| 0 <= j < |a[s].value.trans| && a[s].value.trans[j] == t;
        assert c[s].value.trans[j] == t;
      }
    } else {
      var t := Transition(None, p[1]);
      assert Has(a, p[0], t);
      var j :| 0 <= j < |a[s].value.trans| && a[s].value.trans[j] == t;
      var rest := p[1..];
      assert EpsilonPath(a, rest) by {
        forall i | 0 <= i < |rest| - 1
          ensures Has(a, rest[i], Transition(None, rest[i + 1]))
        {
          assert Has(a, p[i + 1], Transition(None, p[i + 2]));
        }
      }
      assert BranchDone(a, c, s, t);
      assert WalkAvoiding(a, s, p[1], rest);
      assert rest[|rest| - 1] == p[|p| - 1];
    }
  }

  ghost predicate TargetsInRange(a: Slots) {
    forall q, t :: Live(a, q) && Has(a, q, t) ==> t.to < |a|
  }

  lemma RangeAfterAdding(a: Slots, q: int, t: Transition)
    requires TargetsInRange(a) && Live(a, q) && t.to < |a|
    ensures TargetsInRange(WithTrans(a, q, AddedTrans(a[q].value.trans, t)))
  {
    var b := WithTrans(a, q, AddedTrans(a[q].value.trans, t));
    forall r, u | Live(b, r) && Has(b, r, u)
      ensures u.to < |b|
    {
      assert Live(a, r) && (Has(a, r, u) || u == t);
    }
  }

  lemma RangeAfterKind(a: Slots, q: int, kind: Kind)
    requires TargetsInRange(a) && Live(a, q)
    ensures TargetsInRange(WithKind(a, q, kind))
  {
    var b := WithKind(a, q, kind);
    forall r, u | Live(b, r) && Has(b, r, u)
      ensures u.to < |b|
    {
      assert Live(a, r) && Has(a, r, u);
    }
  }

  /** No matter which symbols the atoms accept, every state accepts the same words. */
  ghost predicate Equivalent(a: Slots, b: Slots) {
    forall m: Matcher :: SameLanguage(a, b, m)
  }

  ghost predicate SameFromStart(a: Slots, b: Slots) {
    forall m: Matcher, w: Word :: Accepts(a, m, 0, w) <==> Accepts(b, m, 0, w)
  }

  lemma ClosedIsEquivalent(a: Slots, b: Slots, s: int)
    requires Closed(a, b, s)
    ensures Equivalent(a, b)
  {
    forall m: Matcher
      ensures SameLanguage(a, b, m)
    {
      ClosingKeepsLanguages(a, b, m, s);
    }
  }

  lemma EquivalentTransitive(a: Slots, b: Slots, c: Slots)
    requires Equivalent(a, b) && Equivalent(b, c)
    ensures Equivalent(a, c)
  {
    forall m: Matcher
      ensures SameLanguage(a, c, m)
    {
      SameLanguageTransitive(a, b, c, m);
    }
  }

  /** Links between states and the emptiness of sinks carry over, and no freed state comes back. */
  ghost predicate KeepsShape(a: Slots, b: Slots) {
    && (forall q :: Live(b, q) ==> Live(a, q))
    && (forall n: nat :: Linked(a, n) ==> Linked(b, n))
    && (SinksAreEmpty(a) ==> SinksAreEmpty(b))
  }

  lemma ClosedKeepsShape(a: Slots, b: Slots, c: Slots, s: int)
    requires KeepsShape(a, b) && Closed(b, c, s)
    ensures KeepsShape(a, c)
  {
    forall n: nat | Linked(a, n)
      ensures Linked(c, n)
    {
      ClosedKeepsLinks(b, c, s, n);
    }
    if SinksAreEmpty(a) {
      forall q | Live(c, q) && c[q].value.kind == SinkState
        ensures c[q].value.trans == []
      {
        assert Live(b, q);
      }
    }
  }

  lemma PrunedKeepsShape(a: Slots, b: Slots, c: Slots, kept: set<int>)
    requires KeepsShape(a, b) && Pruned(b, c, kept)
    ensures KeepsShape(a, c)
  {
    forall n: nat | Linked(a, n)
      ensures Linked(c, n)
    {
      PruningKeepsLinks(b, c, kept, n);
    }
    if SinksAreEmpty(a) {
      forall q | Live(c, q) && c[q].value.kind == SinkState
        ensures c[q].value.trans == []
      {
        assert Live(b, q);
      }
    }
  }

  ghost predicate NoEpsilonFrom(a: Slots, s: int) {
    forall q :: s <= q < |a| ==> NoEpsilonAt(a, q)
  }

  /** The search from state 0: visited states lead only to reached states. */
  ghost predicate Explored(a: Slots, reached: seq<Mark>) {
    && |reached| == |a|
    && (forall q :: 0 <= q < |a| && reached[q] != Normal ==> Live(a, q))
    && (forall q :: 0 <= q < |a| && reached[q] == Visited ==> LeadsToReached(a, reached, q, |a[q].value.trans|))
  }

  /** The first k transitions of q lead to reached states. */
  ghost predicate LeadsToReached(a: Slots, reached: seq<Mark>, q: int, k: int)
    requires |reached| == |a|
  {
    && Live(a, q) && 0 <= k <= |a[q].value.trans|
    && forall j :: 0 <= j < k ==>
      var t := a[q].value.trans[j];
      t.atom != None && Live(a, t.to) ==> reached[t.to] != Normal
  }

  ghost function Unvisited(reached: seq<Mark>): set<int> {
    set i | 0 <= i < |reached| && reached[i] != Visited
  }

  lemma VisitingShrinks(reached: seq<Mark>, later: seq<Mark>, q: int)
    requires |later| == |reached| && 0 <= q < |reached| && reached[q] != Visited && later[q] == Visited
    requires forall i :: 0 <= i < |reached| && reached[i] == Visited ==> later[i] == Visited
    ensures |Unvisited(later)| < |Unvisited(reached)|
  {
    var before, after := Unvisited(reached), Unvisited(later);
    assert after <= before - {q};
    assert before == (before - {q}) + {q};
    SubsetIsNoLarger(after, before - {q});
  }

  ghost function ReachedStates(reached: seq<Mark>): set<int> {
    set q | 0 <= q < |reached| && reached[q] != Normal
  }

  lemma SearchIsClosed(a: Slots, b: Slots, reached: seq<Mark>)
    requires NoEpsilon(a) && Explored(a, reached) && |b| == |a|
    requires forall q :: 0 <= q < |a| ==> reached[q] != Start
    requires forall q :: 0 <= q < |a| ==> b[q] == if reached[q] != Normal then a[q] else None
    ensures Pruned(a, b, ReachedStates(reached))
  {
    var kept := ReachedStates(reached);
    forall q, t | q in kept && Live(a, q) && Has(a, q, t) && Live(a, t.to)
      ensures t.to in kept
    {
      assert NoEpsilonAt(a, q);
      assert LeadsToReached(a, reached, q, |a[q].value.trans|);
      var j :| 0 <= j < |a[q].value.trans| && a[q].value.trans[j] == t;
    }
  }

  lemma SearchKeepsLanguage(a: Slots, b: Slots, reached: seq<Mark>)
    requires Pruned(a, b, ReachedStates(reached)) && (Live(a, 0) ==> 0 in ReachedStates(reached))
    ensures SameFromStart(a, b)
  {
    forall m: Matcher, w: Word
      ensures Accepts(a, m, 0, w) <==> Accepts(b, m, 0, w)
    {
      if Live(a, 0) {
        PruningKeepsLanguage(a, b, m, ReachedStates(reached), 0);
      }
    }
  }

  lemma StartTransitive(a: Slots, b: Slots, c: Slots)
    requires Equivalent(a, b) && SameFromStart(b, c)
    ensures SameFromStart(a, c)
  {
    forall m: Matcher, w: Word
      ensures Accepts(a, m, 0, w) <==> Accepts(c, m, 0, w)
    {
      assert SameLanguage(a, b, m);
    }
  }

  lemma VisitedStaysExplored(a: Slots, before: seq<Mark>, after: seq<Mark>, cur: int)
    requires Explored(a, before) && |after| == |before| && 0 <= cur < |a| && before[cur] == Start
    requires after[cur] == Visited && LeadsToReached(a, after, cur, |a[cur].value.trans|)
    requires forall i :: 0 <= i < |after| && i != cur ==>
      after[i] == before[i] || (before[i] == Normal && after[i] == Start && Live(a, i))
    ensures Explored(a, after)
  {
    forall q | 0 <= q < |a| && after[q] == Visited
      ensures LeadsToReached(a, after, q, |a[q].value.trans|)
    {
      if q != cur {
        assert LeadsToReached(a, before, q, |a[q].value.trans|);
      }
    }
  }

  /** State q is reached from the first one over marked states. */
  ghost predicate Trailed(a: Slots, reached: seq<Mark>, q: int)
    requires |reached| == |a|
  {
    exists p :: Walk(a, p) && p[|p| - 1] == q && forall i :: 0 <= i < |p| ==> reached[p[i]] != Normal
  }

  ghost predicate AllTrailed(a: Slots, reached: seq<Mark>) {
    |reached| == |a| && forall q :: 0 <= q < |a| && reached[q] != Normal ==> Trailed(a, reached, q)
  }

  lemma FirstIsTrailed(a: Slots, reached: seq<Mark>)
    requires Live(a, 0) && |reached| == |a| && reached[0] != Normal
    requires forall q :: 0 < q < |a| ==> reached[q] == Normal
    ensures AllTrailed(a, reached)
  {
    assert Walk(a, [0]) && [0][0] == 0;
  }

  /** Marking what a marked state leads to. */
  lemma TrailsGrow(a: Slots, before: seq<Mark>, after: seq<Mark>, cur: int)
    requires AllTrailed(a, before) && |after| == |before| && 0 <= cur < |a| && before[cur] != Normal
    requires forall i :: 0 <= i < |a| && before[i] != Normal ==> after[i] != Normal
    requires forall i :: 0 <= i < |a| && before[i] == Normal && after[i] != Normal ==> Live(a, i) && LeadsTo(a, cur, i)
    ensures AllTrailed(a, after)
  {
    forall q | 0 <= q < |a| && after[q] != Normal
      ensures Trailed(a, after, q)
    {
      var last := if before[q] != Normal then q else cur;
      assert Trailed(a, before, last);
      var p :| Walk(a, p) && p[|p| - 1] == last && forall i :: 0 <= i < |p| ==> before[p[i]] != Normal;
      if before[q] == Normal {
        var longer := p + [q];
        assert Walk(a, longer) && longer[|longer| - 1] == q;
      }
    }
  }

  /** What is left when the other states are freed is still reached. */
  lemma TrailsAreKept(a: Slots, b: Slots, reached: seq<Mark>)
    requires AllTrailed(a, reached) && |b| == |a|
    requires forall q :: 0 <= q < |a| ==> b[q] == if reached[q] != Normal then a[q] else None
    ensures AllReached(b)
  {
    forall q | Live(b, q)
      ensures exists p :: Walk(b, p) && p[|p| - 1] == q
    {
      assert Trailed(a, reached, q);
      var p :| Walk(a, p) && p[|p| - 1] == q && forall i :: 0 <= i < |p| ==> reached[p[i]] != Normal;
      forall i | 0 < i < |p|
        ensures LeadsTo(b, p[i - 1], p[i])
      {
        assert LeadsTo(a, p[i - 1], p[i]) && b[p[i - 1]] == a[p[i - 1]];
        var t :| Has(a, p[i - 1], t) && t.to == p[i];
        assert Has(b, p[i - 1], t);
      }
      assert Walk(b, p);
    }
  }

  ghost predicate AllFreed(a: Slots) {
    forall q :: 0 <= q < |a| ==> a[q] == None
  }

  lemma FreedStaysInRange(a: Slots, b: Slots)
    requires TargetsInRange(a) && |b| == |a| && forall q :: 0 <= q < |a| ==> b[q] == a[q] || b[q] == None
    ensures TargetsInRange(b)
  {
    forall q, t | Live(b, q) && Has(b, q, t)
      ensures t.to < |b|
    {
      assert Live(a, q) && Has(a, q, t);
    }
  }

  class Automaton {
    var states: Slots
    var marks: seq<Mark>
    var reached: seq<Mark>
    var transTo: seq<seq<nat>>

    ghost predicate Valid()
      reads this
    {
      && |marks| == |reached| == |transTo| == |states|
      && TargetsInRange(states)
    }

    /** Adds a transition unless a freed slot is involved or the transition is there already. */
    method AddTrans(q: int, atom: Option<Atom>, to: int)
      requires Valid() && 0 <= q < |states| && 0 <= to < |states|
      modifies this`states, this`transTo
      ensures Valid()
      ensures states == if Live(old(states), q) && Live(old(states), to)
        then WithTrans(old(states), q, AddedTrans(old(states)[q].value.trans, Transition(atom, to)))
        else old(states)
      ensures transTo == if Live(old(states), q) && Live(old(states), to) && !Has(old(states), q, Transition(atom, to))
        then old(transTo)[to := old(transTo)[to] + [q]] else old(transTo)
    {
      if states[q].None? || states[to].None? {
        return;
      }
      var s := states[q].value;
      for k := |s.trans| downto 0
        invariant states == old(states) && transTo == old(transTo)
        invariant forall j :: k <= j < |s.trans| ==> s.trans[j] != Transition(atom, to)
      {
        if s.trans[k] == Transition(atom, to) {
          assert states == WithTrans(states, q, s.trans);
          return;
        }
      }
      RangeAfterAdding(states, q, Transition(atom, to));
      states := states[q := Some(State(s.kind, s.trans + [Transition(atom, to)]))];
      transTo := transTo[to := transTo[to] + [q]];
    }

    /** Copies to `from` everything found behind `to` on walks that meet no marked state. */
    method ReduceEpsilonTransitions(from: int, to: int)
      requires Valid() && 0 <= to < |states|
      requires Live(states, from) && marks[from] != Normal
      modifies this`states, this`transTo, this`marks
      ensures Valid() && marks == old(marks)
      ensures Grew(old(states), states, from)
      ensures AddsOnly(old(states), states, from, to)
      ensures CopiesAll(old(states), states, old(marks), from, to)
      decreases |Unmarked(marks)|
    {
      ghost var g, start := states, marks;
      if states[to].None? {
        return;
      }
      if marks[to] == Start || marks[to] == Visited {
        return;
      }
      MarkingShrinks(marks, to);
      ScanStart(g, start, from, to);
      marks := marks[to := Visited];
      if states[to].value.kind == FinalState {
        RangeAfterKind(states, from, FinalState);
        states := states[from := Some(states[from].value.(kind := FinalState))];
      }
      var k := 0;
      while k < |states[to].value.trans|
        invariant Valid() && marks == start[to := Visited]
        invariant Scanning(g, states, start, from, to, k)
      {
        var t := states[to].value.trans[k];
        assert Has(states, to, t);
        ghost var h := states;
        if t.to < 0 {
          ScanSkip(g, h, start, from, to, k);
        } else if t.atom == None {
          if t.to != from {
            ReduceEpsilonTransitions(from, t.to);
            ScanEpsilon(g, h, states, start, from, to, k);
          } else {
            ScanSkip(g, h, start, from, to, k);
          }
        } else {
          ScanAtom(g, h, start, from, to, k);
          AddTrans(from, t.atom, t.to);
        }
        k := k + 1;
      }
      AllDone(g, states, start, from, to);
      marks := marks[to := Normal];
    }

    /** Removes one live epsilon transition of s and copies what lies behind it. */
    method CloseTransition(s: int, k: nat, ghost a: Slots)
      requires Valid() && AllNormal(marks) && Closing(a, states, s, k) && Live(states, s) && k < |states[s].value.trans|
      requires states[s].value.trans[k].atom == None && states[s].value.trans[k].to >= 0
      modifies this`states, this`transTo, this`marks
      ensures Valid() && marks == old(marks) && Closing(a, states, s, k + 1) && Live(states, s)
    {
      var t := states[s].value.trans[k];
      ghost var c, normal := states, marks;
      if t.to == s {
        ClosingLoop(a, c, s, k);
        SetTarget(s, k, -1);
      } else {
        assert Has(states, s, t);
        SetTarget(s, k, -2);
        ghost var d := states;
        marks := marks[s := Start];
        ReduceEpsilonTransitions(s, t.to);
        marks := marks[s := Normal];
        ClosingStep(a, c, d, states, normal, s, k);
      }
    }

    /** One transition of s; found says that it was a live epsilon to another state. */
    method CloseNext(s: int, k: nat, ghost a: Slots) returns (found: bool)
      requires Valid() && AllNormal(marks) && Closing(a, states, s, k) && Live(states, s) && k < |states[s].value.trans|
      modifies this`states, this`transTo, this`marks
      ensures Valid() && marks == old(marks) && Closing(a, states, s, k + 1) && Live(states, s)
      ensures LiveEpsilon(a[s].value.trans, s, k + 1) <==> LiveEpsilon(a[s].value.trans, s, k) || found
      ensures k >= |a[s].value.trans| ==> states == old(states)
    {
      var t := states[s].value.trans[k];
      found := t.atom == None && t.to >= 0 && t.to != s;
      NextEpsilon(a[s].value.trans, states[s].value.trans, s, k);
      if t.atom == None && t.to >= 0 {
        CloseTransition(s, k, a);
      } else {
        ClosingSkip(a, states, s, k);
      }
    }

    /** Closes one state: afterwards it has no live epsilon transition, and nothing it accepts is lost or gained. */
    method CloseState(s: int) returns (hasEpsilon: bool)
      requires Valid() && 0 <= s < |states| && AllNormal(marks)
      modifies this`states, this`transTo, this`marks
      ensures Valid() && marks == old(marks)
      ensures if Live(old(states), s) then Closed(old(states), states, s) else states == old(states)
      ensures hasEpsilon <==>
        Live(old(states), s) && LiveEpsilon(old(states)[s].value.trans, s, |old(states)[s].value.trans|)
    {
      hasEpsilon := false;
      if states[s].None? {
        return;
      }
      ghost var a, normal := states, marks;
      ClosingStart(a, s);
      if |states[s].value.trans| == 0 && states[s].value.kind != FinalState {
        ClosingSink(a, s);
        RangeAfterKind(states, s, SinkState);
        states := states[s := Some(states[s].value.(kind := SinkState))];
      }
      var k := 0;
      while k < |states[s].value.trans|
        invariant Valid() && marks == normal
        invariant Closing(a, states, s, k)
        invariant hasEpsilon <==> LiveEpsilon(a[s].value.trans, s, k)
        decreases if k < |a[s].value.trans| then |a[s].value.trans| - k else 0, |states[s].value.trans| - k
      {
        var found := CloseNext(s, k, a);
        hasEpsilon := hasEpsilon || found;
        k := k + 1;
      }
      ClosingEnd(a, states, s);
    }

    method SetTarget(s: int, k: int, to: int)
      requires Valid() && Live(states, s) && 0 <= k < |states[s].value.trans| && to < 0
      modifies this`states
      ensures Valid() && states == WithTarget(old(states), s, k, to)
    {
      ghost var a := states;
      var trans := states[s].value.trans;
      states := states[s := Some(states[s].value.(trans := trans[k := trans[k].(to := to)]))];
      forall q, t | Live(states, q) && Has(states, q, t)
        ensures t.to < |states|
      {
        assert Live(a, q) && (Has(a, q, t) || t.to == to);
      }
    }

    /** The closing pass, from the last state back to the first. */
    method CloseAllStates() returns (hasEpsilon: bool)
      requires Valid() && AllNormal(marks)
      modifies this`states, this`transTo, this`marks
      ensures Valid() && marks == old(marks) && |states| == |old(states)|
      ensures Equivalent(old(states), states) && NoEpsilon(states)
      ensures forall q :: Live(states, q) <==> Live(old(states), q)
      ensures KeepsShape(old(states), states)
    {
      hasEpsilon := false;
      for s := |states| downto 0
        invariant Valid() && marks == old(marks) && |states| == |old(states)|
        invariant Equivalent(old(states), states) && NoEpsilonFrom(states, s)
        invariant forall q :: Live(states, q) <==> Live(old(states), q)
        invariant KeepsShape(old(states), states)
      {
        ghost var before := states;
        var found := CloseState(s);
        hasEpsilon := hasEpsilon || found;
        if Live(before, s) {
          ClosedIsEquivalent(before, states, s);
          EquivalentTransitive(old(states), before, states);
          ClosedKeepsShape(old(states), before, states, s);
        }
        forall q | s <= q < |states|
          ensures NoEpsilonAt(states, q)
        {
          if q > s {
            assert NoEpsilonAt(before, q);
          }
        }
      }
    }

    /** Removes epsilon transitions that are still live; after the closing pass there are none. */
    method DropEpsilons()
      requires Valid() && NoEpsilon(states)
      modifies this`states
      ensures Valid() && states == old(states)
    {
      for s := 0 to |states|
        invariant Valid() && states == old(states)
      {
        if states[s].Some? {
          for k := 0 to |states[s].value.trans|
            invariant Valid() && states == old(states)
          {
            var t := states[s].value.trans[k];
            assert NoEpsilonAt(states, s) && Has(states, s, t);
            if t.atom == None && t.to >= 0 {
              assert false;
            }
          }
        }
      }
    }

    /** Marks the states that the live transitions of state q lead to; returns the last one newly marked. */
    method MarkTargets(q: int) returns (target: int)
      requires Valid() && Live(states, q) && reached[q] == Visited
      modifies this`reached
      ensures Valid() && LeadsToReached(states, reached, q, |states[q].value.trans|)
      ensures forall i :: 0 <= i < |reached| ==>
        reached[i] == old(reached)[i] || (old(reached)[i] == Normal && reached[i] == Start && Live(states, i))
      ensures target == -1 || (0 <= target < |reached| && reached[target] == Start)
      ensures target == -1 ==> reached == old(reached)
      ensures forall i :: 0 <= i < |reached| && reached[i] != old(reached)[i] ==> LeadsTo(states, q, i)
    {
      target := -1;
      for k := 0 to |states[q].value.trans|
        invariant Valid() && LeadsToReached(states, reached, q, k)
        invariant forall i :: 0 <= i < |reached| ==>
          reached[i] == old(reached)[i] || (old(reached)[i] == Normal && reached[i] == Start && Live(states, i))
        invariant target == -1 || (0 <= target < |reached| && reached[target] == Start)
        invariant target == -1 ==> reached == old(reached)
        invariant forall i :: 0 <= i < |reached| && reached[i] != old(reached)[i] ==> LeadsTo(states, q, i)
      {
        var t := states[q].value.trans[k];
        assert Has(states, q, t);
        if t.to >= 0 && t.atom != None && states[t.to].Some? && reached[t.to] == Normal {
          reached := reached[t.to := Start];
          target := t.to;
        }
      }
    }

    /** The next state, after the first, that is marked but not visited yet. */
    method NextReached() returns (target: int)
      requires Valid() && |states| > 0
      requires forall q :: 0 <= q < |states| && reached[q] == Start ==> Live(states, q)
      ensures target == -1 || (0 < target < |states| && reached[target] == Start)
      ensures target == -1 ==> forall q :: 1 <= q < |states| ==> reached[q] != Start
    {
      for s := 1 to |states|
        invariant forall q :: 1 <= q < s ==> reached[q] != Start
      {
        if states[s].Some? && reached[s] == Start {
          return s;
        }
      }
      target := -1;
    }

    /** Visits a marked state and marks what it leads to; returns the last one newly marked. */
    method Visit(cur: int) returns (target: int)
      requires Valid() && Explored(states, reached) && AllTrailed(states, reached)
      requires 0 <= cur < |states| && reached[cur] == Start
      modifies this`reached
      ensures Valid() && Explored(states, reached) && AllTrailed(states, reached)
      ensures reached[cur] == Visited && |Unvisited(reached)| < |Unvisited(old(reached))|
      ensures forall i :: 0 <= i < |states| && old(reached)[i] == Visited ==> reached[i] == Visited
      ensures target == -1 || (0 <= target < |states| && reached[target] == Start)
    {
      ghost var before := reached;
      reached := reached[cur := Visited];
      target := MarkTargets(cur);
      VisitingShrinks(before, reached, cur);
      VisitedStaysExplored(states, before, reached, cur);
      TrailsGrow(states, before, reached, cur);
    }

    /** Marks what state 0 reaches over atom transitions. */
    method MarkReached()
      requires Valid() && |states| > 0
      modifies this`reached
      ensures Valid() && Explored(states, reached)
      ensures forall q :: 0 <= q < |states| ==> reached[q] != Start
      ensures if Live(states, 0) then reached[0] != Normal else AllNormal(reached)
      ensures AllTrailed(states, reached)
    {
      reached := seq(|states|, _ => Normal);
      var cur := -1;
      if states[0].Some? {
        reached := reached[0 := Start];
        FirstIsTrailed(states, reached);
        cur := 0;
      }
      while cur != -1
        invariant Valid() && Explored(states, reached)
        invariant AllTrailed(states, reached)
        invariant cur == -1 || (0 <= cur < |states| && reached[cur] == Start)
        invariant cur == -1 ==> forall q :: 0 <= q < |states| ==> reached[q] != Start
        invariant Live(states, 0) ==> reached[0] == Visited || (cur == 0 && reached[0] == Start)
        invariant !Live(states, 0) ==> cur == -1 && AllNormal(reached)
        decreases |Unvisited(reached)|
      {
        var target := Visit(cur);
        if target == -1 {
          target := NextReached();
        }
        cur := target;
      }
    }

    /** Frees every state that is not marked as reached. */
    method FreeUnreached()
      requires Valid()
      modifies this`states
      ensures Valid() && |states| == |old(states)|
      ensures forall q :: 0 <= q < |states| ==> states[q] == if reached[q] != Normal then old(states)[q] else None
    {
      for s := 0 to |states|
        invariant |states| == |old(states)|
        invariant forall q :: 0 <= q < s ==> states[q] == if reached[q] != Normal then old(states)[q] else None
        invariant forall q :: s <= q < |states| ==> states[q] == old(states)[q]
      {
        if states[s].Some? && reached[s] == Normal {
          states := states[s := None];
        }
      }
      FreedStaysInRange(old(states), states);
    }

    /**
     * The general pass: no live epsilon transition is left, and state 0 accepts exactly the same words. If
     * state 0 was freed before, everything is freed.
     */
    method CloseEpsilonTransitions()
      requires Valid() && AllNormal(marks) && |states| > 0
      modifies this
      ensures Valid() && |states| == |old(states)|
      ensures NoEpsilon(states) && AllReached(states)
      ensures SameFromStart(old(states), states)
      ensures KeepsShape(old(states), states)
      ensures if Live(old(states), 0) then Live(states, 0) else AllFreed(states)
    {
      var hasEpsilon := CloseAllStates();
      ghost var closed := states;
      if hasEpsilon {
        DropEpsilons();
      }
      MarkReached();
      FreeUnreached();
      SearchIsClosed(closed, states, reached);
      TrailsAreKept(closed, states, reached);
      SearchKeepsLanguage(closed, states, reached);
      PrunedKeepsShape(old(states), closed, states, ReachedStates(reached));
      forall q | 0 <= q < |states|
        ensures NoEpsilonAt(states, q)
      {
        assert NoEpsilonAt(closed, q);
      }
      StartTransitive(old(states), closed, states);
    }
  }
}
