/** From a parsed graph to a verdict on a list of tokens: elimination, the table, and pushing. */
module Compilation {
  import opened Results
  import opened Automata
  import opened EpsilonClosure
  import opened StateMerging
  import opened CompactTable
  import opened CompactExec

  lemma LinkedIsWellFormed(a: Slots, atoms: seq<AtomInfo>)
    requires Linked(a, |atoms|)
    ensures WellFormed(a, atoms)
  {
    forall q, t | Live(a, q) && Has(a, q, t) && Usable(t)
      ensures t.atom.value < |atoms| && Live(a, t.to)
    {
      assert t.atom.Some?;
    }
  }

  lemma EmptySinksAreDead(a: Slots)
    requires SinksAreEmpty(a)
    ensures SinksAreDead(a)
  {
  }

  /** A graph as the parser leaves it, whose atoms are in the list. Its first state is where words start. */
  ghost predicate Parsed(am: Automaton, atoms: seq<AtomInfo>)
    reads am
  {
    && am.Valid() && Fresh(am.states, am.transTo) && AllNormal(am.marks)
    && |am.states| > 0 && Linked(am.states, |atoms|) && NoSinks(am.states)
  }

  /** A graph whose table can be pushed through, with sinks as dead ends. */
  ghost predicate Compiled(a: Slots, atoms: seq<AtomInfo>) {
    WellFormed(a, atoms) && NoEpsilon(a) && SinksAreDead(a)
  }

  /** Execution starts in row 0: the first state, or the spare row when nothing is left. */
  lemma FirstRow(a: Slots, comp: Compact)
    requires comp.states == Rank(a, |a|) && (Live(a, 0) || AllFreed(a))
    ensures RowOf(a, comp, 0) == 0
  {
    if !Live(a, 0) {
      NoStatesLeft(a, |a|);
    }
  }

  lemma {:induction false} NoStatesLeft(a: Slots, i: nat)
    requires AllFreed(a) && i <= |a|
    ensures Rank(a, i) == 0
  {
    if i > 0 {
      NoStatesLeft(a, i - 1);
    }
  }

  /** Eliminates the epsilon transitions and builds the table for what is left. */
  method Compile(am: Automaton, atoms: seq<AtomInfo>, determinist: bool) returns (r: Outcome, ghost index: seq<nat>)
    requires Parsed(am, atoms)
    modifies am
    ensures Compiled(am.states, atoms) && AllReached(am.states) && StartJudged(old(am.states), am.states)
    ensures r.NotTried? <==> !determinist || atoms == [] || !atoms[0].isString
    ensures r.Unsupported? <==>
      determinist && atoms != [] && atoms[0].isString && exists x :: x in atoms && !(x.isString && x.once)
    ensures r.NotDeterminist? <==>
      && determinist && atoms != [] && (forall x :: x in atoms ==> x.isString && x.once)
      && !Deterministic(am.states, atoms)
    ensures r.Built? ==> Represents(am.states, atoms, index, r.comp) && InOrderOfAppearance(atoms, r.comp.strings)
  {
    EliminateEpsilonTransitions(am);
    LinkedIsWellFormed(am.states, atoms);
    EmptySinksAreDead(am.states);
    r, index := BuildTable(am.states, atoms, determinist);
  }

  ghost predicate Accepted(a: Slots, atoms: seq<AtomInfo>, tokens: seq<string>) {
    Accepts(a, TokenMatcher(atoms, tokens), 0, Rest(tokens, 0))
  }

  /**
   * Compiles the graph and pushes the tokens. Where the sweep is safe, a final verdict means that the graph
   * with its epsilon transitions accepts the tokens. Where no token matches two different strings, all
   * tokens it accepts get a final verdict, unless its first state was merged away: then none do.
   */
  method Recognize(am: Automaton, atoms: seq<AtomInfo>, determinist: bool, tokens: seq<string>) returns (r: Option<int>)
    requires Parsed(am, atoms)
    requires AllPlain(tokens)
    modifies am
    ensures Compiled(am.states, atoms)
    ensures r.Some? <==>
      && determinist && atoms != [] && (forall x :: x in atoms ==> x.isString && x.once)
      && Deterministic(am.states, atoms)
    ensures r == Some(1) && SafeSweep(old(am.states)) ==> Accepted(old(am.states), atoms, tokens)
    ensures 0 !in MergedAway(old(am.states)) && AtomsApart(atoms) ==>
      r.Some? && Accepted(old(am.states), atoms, tokens) ==> r == Some(1)
    ensures 0 in MergedAway(old(am.states)) && r.Some? ==> r.value == if tokens == [] then 0 else -1
  {
    var outcome, index := Compile(am, atoms, determinist);
    if !outcome.Built? {
      return None;
    }
    var exec := new Exec(outcome.comp);
    FirstRow(am.states, outcome.comp);
    var verdict := PushAll(exec, tokens, am.states, atoms, index, 0);
    if AtomsApart(atoms) {
      TableIndexes(am.states, atoms, index, outcome.comp);
      ApartNoOverlap(am.states, atoms);
      NoOverlapCovers(am.states, atoms, index);
    }
    r := Some(verdict);
  }
}
