/** Pushing string tokens through a compact table, against runs of the original automaton. */
module CompactExec {
  import opened Results
  import opened Automata
  import opened Wildcards
  import opened CompactTable

  /** Transition t of state q reads token v. */
  ghost predicate Reads(a: Slots, atoms: seq<AtomInfo>, q: int, t: Transition, v: string)
    requires WellFormed(a, atoms) && Live(a, q)
  {
    Has(a, q, t) && Usable(t) && WildcardMatch(Text(atoms, t), v)
  }

  ghost predicate Plain(v: string) {
    v != [] && !HasStar(v)
  }

  ghost predicate CanRead(a: Slots, atoms: seq<AtomInfo>, q: int, v: string)
    requires WellFormed(a, atoms)
  {
    Live(a, q) && exists t :: Reads(a, atoms, q, t, v)
  }

  /** Of the transitions that read the token, one on the string with the smallest number. */
  ghost predicate ReadsFirst(a: Slots, atoms: seq<AtomInfo>, idx: seq<nat>, q: int, t: Transition, v: string)
    requires WellFormed(a, atoms) && Live(a, q) && |idx| == |atoms|
  {
    && Reads(a, atoms, q, t, v)
    && forall u :: Reads(a, atoms, q, u, v) ==> idx[t.atom.value] <= idx[u.atom.value]
  }

  /**
   * What pushing token v in state q does: the first transition that reads it is taken, and only reaching a
   * sink is an error; without such a transition the execution fails in place.
   */
  ghost predicate Pushed(a: Slots, atoms: seq<AtomInfo>, idx: seq<nat>, q: int, v: string, next: int, r: int,
                         status: int)
    requires WellFormed(a, atoms) && |idx| == |atoms|
  {
    if CanRead(a, atoms, q, v) then
      && Live(a, next)
      && (exists t :: ReadsFirst(a, atoms, idx, q, t, v) && t.to == next)
      && status == (if a[next].value.kind == SinkState then -1 else 0)
      && r == (if a[next].value.kind == SinkState then -1 else if IsFinal(a, next) then 1 else 0)
    else next == q && r == status == -1
  }

  /** Symbols are positions in the token list. */
  ghost function TokenMatcher(atoms: seq<AtomInfo>, tokens: seq<string>): Matcher {
    (atom: Atom, symbol: Symbol) =>
      atom < |atoms| && symbol < |tokens| && WildcardMatch(atoms[atom].text, tokens[symbol])
  }

  /** The word of the tokens from position i on. */
  ghost function Rest(tokens: seq<string>, i: nat): Word
    requires i <= |tokens|
  {
    seq(|tokens| - i, k requires 0 <= k < |tokens| - i => i + k)
  }

  lemma RestStep(tokens: seq<string>, i: nat)
    requires i < |tokens|
    ensures Rest(tokens, i) != [] && Rest(tokens, i)[0] == i && Rest(tokens, i)[1..] == Rest(tokens, i + 1)
  {
  }

  /** Sinks have no usable transitions, as the closing pass leaves them. */
  ghost predicate SinksAreDead(a: Slots) {
    forall q, t :: Live(a, q) && a[q].value.kind == SinkState && Has(a, q, t) ==> t.to < 0
  }

  ghost predicate NoStars(atoms: seq<AtomInfo>) {
    forall i :: 0 <= i < |atoms| ==> !HasStar(atoms[i].text)
  }

  /** No plain token matches two atoms of different texts. */
  ghost predicate AtomsApart(atoms: seq<AtomInfo>) {
    forall i, j, v :: 0 <= i < |atoms| && 0 <= j < |atoms| && BothMatch(atoms, i, j, v) ==>
      atoms[i].text == atoms[j].text
  }

  ghost predicate BothMatch(atoms: seq<AtomInfo>, i: nat, j: nat, v: string)
    requires i < |atoms| && j < |atoms|
  {
    Plain(v) && WildcardMatch(atoms[i].text, v) && WildcardMatch(atoms[j].text, v)
  }

  /** No state has two transitions to different targets that read one plain token. */
  ghost predicate NoOverlap(a: Slots, atoms: seq<AtomInfo>)
    requires WellFormed(a, atoms)
  {
    forall q, t, u, v ::
      Live(a, q) && Plain(v) && Reads(a, atoms, q, t, v) && Reads(a, atoms, q, u, v) ==> t.to == u.to
  }

  lemma NoStarsApart(atoms: seq<AtomInfo>)
    requires NoStars(atoms)
    ensures AtomsApart(atoms)
  {
    forall i, j, v | 0 <= i < |atoms| && 0 <= j < |atoms| && BothMatch(atoms, i, j, v)
      ensures atoms[i].text == atoms[j].text
    {
      MatchWithoutStar(atoms[i].text, v);
      MatchWithoutStar(atoms[j].text, v);
    }
  }

  lemma ApartNoOverlap(a: Slots, atoms: seq<AtomInfo>)
    requires WellFormed(a, atoms) && Deterministic(a, atoms) && AtomsApart(atoms)
    ensures NoOverlap(a, atoms)
  {
    forall q, t, u, v | Live(a, q) && Plain(v) && Reads(a, atoms, q, t, v) && Reads(a, atoms, q, u, v)
      ensures t.to == u.to
    {
      assert BothMatch(atoms, t.atom.value, u.atom.value, v);
    }
  }

  /** Taking a transition that reads the next token never accepts more. */
  lemma StepIsSound(a: Slots, atoms: seq<AtomInfo>, tokens: seq<string>, i: nat, q: int, t: Transition)
    requires WellFormed(a, atoms) && Live(a, q) && i < |tokens| && Reads(a, atoms, q, t, tokens[i])
    requires Accepts(a, TokenMatcher(atoms, tokens), t.to, Rest(tokens, i + 1))
    ensures Accepts(a, TokenMatcher(atoms, tokens), q, Rest(tokens, i))
  {
    RestStep(tokens, i);
    AcceptsByAtom(a, TokenMatcher(atoms, tokens), q, t, Rest(tokens, i));
  }

  /** A run over the remaining tokens starts with a transition that reads the next one. */
  lemma FirstStep(a: Slots, atoms: seq<AtomInfo>, tokens: seq<string>, i: nat, q: int) returns (u: Transition)
    requires WellFormed(a, atoms) && NoEpsilon(a) && Live(a, q) && i < |tokens|
    requires Accepts(a, TokenMatcher(atoms, tokens), q, Rest(tokens, i))
    ensures Reads(a, atoms, q, u, tokens[i]) && Live(a, u.to)
    ensures Accepts(a, TokenMatcher(atoms, tokens), u.to, Rest(tokens, i + 1))
  {
    var m := TokenMatcher(atoms, tokens);
    RestStep(tokens, i);
    var path :| Run(a, m, q, Rest(tokens, i), path);
    u := path[0];
    assert NoEpsilonAt(a, q) && Has(a, q, u);
    var rest := if u.atom == None then Rest(tokens, i) else Rest(tokens, i + 1);
    assert Run(a, m, u.to, rest, path[1..]);
    assert Live(a, u.to);
  }

  /** Some transitions read the tokens one after the other and end in a final state. */
  ghost predicate AcceptsTokens(a: Slots, atoms: seq<AtomInfo>, q: int, tokens: seq<string>)
    requires WellFormed(a, atoms)
    decreases |tokens|
  {
    && Live(a, q)
    && if tokens == [] then IsFinal(a, q)
       else exists t :: Reads(a, atoms, q, t, tokens[0]) && AcceptsTokens(a, atoms, t.to, tokens[1..])
  }

  /** The first transitions to read the tokens do. */
  ghost predicate Greedy(a: Slots, atoms: seq<AtomInfo>, idx: seq<nat>, q: int, tokens: seq<string>)
    requires WellFormed(a, atoms) && |idx| == |atoms|
    decreases |tokens|
  {
    && Live(a, q)
    && if tokens == [] then IsFinal(a, q)
       else exists t :: ReadsFirst(a, atoms, idx, q, t, tokens[0]) && Greedy(a, atoms, idx, t.to, tokens[1..])
  }

  /** Both are about the tokens from position i on. */
  lemma {:induction false} TokensAreRuns(a: Slots, atoms: seq<AtomInfo>, tokens: seq<string>, i: nat, q: int)
    requires WellFormed(a, atoms) && NoEpsilon(a) && Live(a, q) && i <= |tokens|
    ensures AcceptsTokens(a, atoms, q, tokens[i..]) <==> Accepts(a, TokenMatcher(atoms, tokens), q, Rest(tokens, i))
    decreases |tokens| - i
  {
    if i == |tokens| {
      assert Rest(tokens, i) == [];
      EndOfTokens(a, TokenMatcher(atoms, tokens), q);
    } else {
      assert tokens[i..][0] == tokens[i] && tokens[i..][1..] == tokens[i + 1..];
      if AcceptsTokens(a, atoms, q, tokens[i..]) {
        var t :| Reads(a, atoms, q, t, tokens[i]) && AcceptsTokens(a, atoms, t.to, tokens[i + 1..]);
        TokensAreRuns(a, atoms, tokens, i + 1, t.to);
        StepIsSound(a, atoms, tokens, i, q, t);
      }
      if Accepts(a, TokenMatcher(atoms, tokens), q, Rest(tokens, i)) {
        var u := FirstStep(a, atoms, tokens, i, q);
        TokensAreRuns(a, atoms, tokens, i + 1, u.to);
      }
    }
  }

  /** Atoms with one number have one text. */
  ghost predicate Indexes(atoms: seq<AtomInfo>, idx: seq<nat>) {
    |idx| == |atoms| && forall i, j :: 0 <= i < |atoms| && 0 <= j < |atoms| && idx[i] == idx[j] ==>
      atoms[i].text == atoms[j].text
  }

  ghost predicate AllPlain(tokens: seq<string>) {
    forall i :: 0 <= i < |tokens| ==> Plain(tokens[i])
  }

  /** Whatever follows a token over some transition also follows it over the first one. */
  ghost predicate FirstCovers(a: Slots, atoms: seq<AtomInfo>, idx: seq<nat>)
    requires WellFormed(a, atoms) && |idx| == |atoms|
  {
    forall q, t, u, v, tokens :: FirstOfTwo(a, atoms, idx, q, t, u, v) ==> CoversOn(a, atoms, t.to, u.to, tokens)
  }

  /** Two transitions read the token, and t is the first. */
  ghost predicate FirstOfTwo(a: Slots, atoms: seq<AtomInfo>, idx: seq<nat>, q: int, t: Transition, u: Transition,
                             v: string)
    requires WellFormed(a, atoms) && |idx| == |atoms|
  {
    Live(a, q) && Plain(v) && ReadsFirst(a, atoms, idx, q, t, v) && Reads(a, atoms, q, u, v)
  }

  ghost predicate CoversOn(a: Slots, atoms: seq<AtomInfo>, p: int, q: int, tokens: seq<string>)
    requires WellFormed(a, atoms)
  {
    AllPlain(tokens) && AcceptsTokens(a, atoms, q, tokens) ==> AcceptsTokens(a, atoms, p, tokens)
  }

  lemma OneFirstTarget(a: Slots, atoms: seq<AtomInfo>, idx: seq<nat>, q: int, t: Transition, u: Transition, v: string)
    requires WellFormed(a, atoms) && Deterministic(a, atoms) && Indexes(atoms, idx) && Live(a, q)
    requires ReadsFirst(a, atoms, idx, q, t, v) && ReadsFirst(a, atoms, idx, q, u, v)
    ensures t.to == u.to
  {
    assert idx[t.atom.value] == idx[u.atom.value];
    assert Text(atoms, t) == Text(atoms, u);
  }

  lemma {:induction false} FirstExists(a: Slots, atoms: seq<AtomInfo>, idx: seq<nat>, q: int, u: Transition, v: string)
    returns (t: Transition)
    requires WellFormed(a, atoms) && |idx| == |atoms| && Live(a, q) && Reads(a, atoms, q, u, v)
    ensures ReadsFirst(a, atoms, idx, q, t, v)
    decreases idx[u.atom.value]
  {
    if w :| Reads(a, atoms, q, w, v) && idx[w.atom.value] < idx[u.atom.value] {
      t := FirstExists(a, atoms, idx, q, w, v);
    } else {
      t := u;
    }
  }

  lemma {:induction false} GreedyIsSound(a: Slots, atoms: seq<AtomInfo>, idx: seq<nat>, q: int, tokens: seq<string>)
    requires WellFormed(a, atoms) && |idx| == |atoms| && Greedy(a, atoms, idx, q, tokens)
    ensures AcceptsTokens(a, atoms, q, tokens)
    decreases |tokens|
  {
    if tokens != [] {
      var t :| ReadsFirst(a, atoms, idx, q, t, tokens[0]) && Greedy(a, atoms, idx, t.to, tokens[1..]);
      GreedyIsSound(a, atoms, idx, t.to, tokens[1..]);
      assert Reads(a, atoms, q, t, tokens[0]);
    }
  }

  lemma {:induction false} GreedyIsComplete(a: Slots, atoms: seq<AtomInfo>, idx: seq<nat>, q: int, tokens: seq<string>)
    requires WellFormed(a, atoms) && |idx| == |atoms| && FirstCovers(a, atoms, idx) && AllPlain(tokens)
    requires AcceptsTokens(a, atoms, q, tokens)
    ensures Greedy(a, atoms, idx, q, tokens)
    decreases |tokens|
  {
    if tokens != [] {
      var t := FirstTaken(a, atoms, idx, q, tokens);
      GreedyIsComplete(a, atoms, idx, t.to, tokens[1..]);
    }
  }

  lemma FirstTaken(a: Slots, atoms: seq<AtomInfo>, idx: seq<nat>, q: int, tokens: seq<string>) returns (t: Transition)
    requires WellFormed(a, atoms) && |idx| == |atoms| && FirstCovers(a, atoms, idx)
    requires tokens != [] && AllPlain(tokens) && AcceptsTokens(a, atoms, q, tokens)
    ensures Live(a, q) && ReadsFirst(a, atoms, idx, q, t, tokens[0])
    ensures AllPlain(tokens[1..]) && AcceptsTokens(a, atoms, t.to, tokens[1..])
  {
    var u :| Reads(a, atoms, q, u, tokens[0]) && AcceptsTokens(a, atoms, u.to, tokens[1..]);
    t := FirstExists(a, atoms, idx, q, u, tokens[0]);
    assert Plain(tokens[0]) && FirstOfTwo(a, atoms, idx, q, t, u, tokens[0]);
    assert CoversOn(a, atoms, t.to, u.to, tokens[1..]);
  }

  /** From every state and for all tokens, pushing finds what is accepted. */
  ghost predicate PushingIsRight(a: Slots, atoms: seq<AtomInfo>, idx: seq<nat>)
    requires WellFormed(a, atoms) && |idx| == |atoms|
  {
    forall q, tokens :: FindsRun(a, atoms, idx, q, tokens)
  }

  ghost predicate FindsRun(a: Slots, atoms: seq<AtomInfo>, idx: seq<nat>, q: int, tokens: seq<string>)
    requires WellFormed(a, atoms) && |idx| == |atoms|
  {
    AllPlain(tokens) && AcceptsTokens(a, atoms, q, tokens) ==> Greedy(a, atoms, idx, q, tokens)
  }

  /** The first match can be taken for good exactly when it covers the others. */
  lemma PushingIsExact(a: Slots, atoms: seq<AtomInfo>, idx: seq<nat>)
    requires WellFormed(a, atoms) && Deterministic(a, atoms) && Indexes(atoms, idx)
    ensures PushingIsRight(a, atoms, idx) <==> FirstCovers(a, atoms, idx)
  {
    if FirstCovers(a, atoms, idx) {
      forall q, tokens
        ensures FindsRun(a, atoms, idx, q, tokens)
      {
        if AllPlain(tokens) && AcceptsTokens(a, atoms, q, tokens) {
          GreedyIsComplete(a, atoms, idx, q, tokens);
        }
      }
    }
    if PushingIsRight(a, atoms, idx) {
      forall q, t, u, v, tokens | FirstOfTwo(a, atoms, idx, q, t, u, v)
        ensures CoversOn(a, atoms, t.to, u.to, tokens)
      {
        assert FindsRun(a, atoms, idx, q, [v] + tokens);
        RightMeansCovered(a, atoms, idx, q, t, u, v, tokens);
      }
    }
  }

  lemma RightMeansCovered(a: Slots, atoms: seq<AtomInfo>, idx: seq<nat>, q: int, t: Transition, u: Transition,
                          v: string, tokens: seq<string>)
    requires WellFormed(a, atoms) && Deterministic(a, atoms) && Indexes(atoms, idx)
    requires FirstOfTwo(a, atoms, idx, q, t, u, v) && FindsRun(a, atoms, idx, q, [v] + tokens)
    ensures CoversOn(a, atoms, t.to, u.to, tokens)
  {
    if AllPlain(tokens) && AcceptsTokens(a, atoms, u.to, tokens) {
      TokenInFront(a, atoms, q, u, v, tokens);
      GreedyGoesOn(a, atoms, idx, q, t, v, tokens);
      GreedyIsSound(a, atoms, idx, t.to, tokens);
    }
  }

  lemma TokenInFront(a: Slots, atoms: seq<AtomInfo>, q: int, u: Transition, v: string, tokens: seq<string>)
    requires WellFormed(a, atoms) && Live(a, q) && Plain(v) && AllPlain(tokens)
    requires Reads(a, atoms, q, u, v) && AcceptsTokens(a, atoms, u.to, tokens)
    ensures AllPlain([v] + tokens) && AcceptsTokens(a, atoms, q, [v] + tokens)
  {
    assert ([v] + tokens)[0] == v && ([v] + tokens)[1..] == tokens;
  }

  lemma GreedyGoesOn(a: Slots, atoms: seq<AtomInfo>, idx: seq<nat>, q: int, t: Transition, v: string,
                     tokens: seq<string>)
    requires WellFormed(a, atoms) && Deterministic(a, atoms) && Indexes(atoms, idx) && Live(a, q)
    requires ReadsFirst(a, atoms, idx, q, t, v) && Greedy(a, atoms, idx, q, [v] + tokens)
    ensures Greedy(a, atoms, idx, t.to, tokens)
  {
    assert ([v] + tokens)[0] == v && ([v] + tokens)[1..] == tokens;
    var w :| ReadsFirst(a, atoms, idx, q, w, v) && Greedy(a, atoms, idx, w.to, tokens);
    OneFirstTarget(a, atoms, idx, q, t, w, v);
  }

  /** It covers them where no token has two ways to go. */
  lemma NoOverlapCovers(a: Slots, atoms: seq<AtomInfo>, idx: seq<nat>)
    requires WellFormed(a, atoms) && |idx| == |atoms| && NoOverlap(a, atoms)
    ensures FirstCovers(a, atoms, idx)
  {
    forall q, t, u, v, tokens | FirstOfTwo(a, atoms, idx, q, t, u, v)
      ensures CoversOn(a, atoms, t.to, u.to, tokens)
    {
      assert Reads(a, atoms, q, t, v) && t.to == u.to;
    }
  }

  lemma SinkRejects(a: Slots, atoms: seq<AtomInfo>, idx: seq<nat>, q: int, tokens: seq<string>)
    requires WellFormed(a, atoms) && |idx| == |atoms| && SinksAreDead(a) && Live(a, q) && a[q].value.kind == SinkState
    ensures !Greedy(a, atoms, idx, q, tokens)
  {
    forall t | Has(a, q, t)
      ensures !Usable(t)
    {
      assert t.to < 0;
    }
  }

  /** The first transitions to read the tokens can read all of them, without entering a sink. */
  ghost predicate ReadsAll(a: Slots, atoms: seq<AtomInfo>, idx: seq<nat>, q: int, tokens: seq<string>)
    requires WellFormed(a, atoms) && |idx| == |atoms|
    decreases |tokens|
  {
    tokens == [] || (
      && Live(a, q)
      && exists t ::
        ReadsFirst(a, atoms, idx, q, t, tokens[0]) && NoSink(a, t.to) && ReadsAll(a, atoms, idx, t.to, tokens[1..]))
  }

  ghost predicate NoSink(a: Slots, q: int) {
    Live(a, q) && a[q].value.kind != SinkState
  }

  lemma ReadsAllGoesOn(a: Slots, atoms: seq<AtomInfo>, idx: seq<nat>, q: int, t: Transition, v: string,
                       tokens: seq<string>)
    requires WellFormed(a, atoms) && Deterministic(a, atoms) && Indexes(atoms, idx) && Live(a, q)
    requires ReadsFirst(a, atoms, idx, q, t, v)
    ensures ReadsAll(a, atoms, idx, q, [v] + tokens) <==> NoSink(a, t.to) && ReadsAll(a, atoms, idx, t.to, tokens)
  {
    assert ([v] + tokens)[0] == v && ([v] + tokens)[1..] == tokens;
    if ReadsAll(a, atoms, idx, q, [v] + tokens) {
      var w :| ReadsFirst(a, atoms, idx, q, w, v) && NoSink(a, w.to) && ReadsAll(a, atoms, idx, w.to, tokens);
      OneFirstTarget(a, atoms, idx, q, t, w, v);
    }
  }

  /** The execution has read the tokens before i and stands in q, or has failed. */
  ghost predicate Tracks(a: Slots, atoms: seq<AtomInfo>, idx: seq<nat>, tokens: seq<string>, i: nat, q: int,
                         status: int, start: int)
    requires i <= |tokens| && WellFormed(a, atoms) && |idx| == |atoms|
  {
    && (Greedy(a, atoms, idx, start, tokens) <==> status == 0 && Greedy(a, atoms, idx, q, tokens[i..]))
    && (ReadsAll(a, atoms, idx, start, tokens) <==> status == 0 && ReadsAll(a, atoms, idx, q, tokens[i..]))
  }

  lemma TracksStep(a: Slots, atoms: seq<AtomInfo>, idx: seq<nat>, tokens: seq<string>, i: nat, q: int, next: int,
                   r: int, status: int, start: int)
    requires WellFormed(a, atoms) && Deterministic(a, atoms) && SinksAreDead(a) && Indexes(atoms, idx)
    requires i < |tokens| && Tracks(a, atoms, idx, tokens, i, q, 0, start)
    requires Pushed(a, atoms, idx, q, tokens[i], next, r, status)
    ensures Tracks(a, atoms, idx, tokens, i + 1, next, status, start)
  {
    assert tokens[i..] == [tokens[i]] + tokens[i + 1..];
    if CanRead(a, atoms, q, tokens[i]) {
      var t :| ReadsFirst(a, atoms, idx, q, t, tokens[i]) && t.to == next;
      GreedyStep(a, atoms, idx, q, t, tokens[i], tokens[i + 1..]);
      ReadsAllGoesOn(a, atoms, idx, q, t, tokens[i], tokens[i + 1..]);
    } else {
      StuckStops(a, atoms, idx, q, tokens[i..]);
    }
  }

  lemma GreedyStep(a: Slots, atoms: seq<AtomInfo>, idx: seq<nat>, q: int, t: Transition, v: string, tokens: seq<string>)
    requires WellFormed(a, atoms) && Deterministic(a, atoms) && SinksAreDead(a) && Indexes(atoms, idx) && Live(a, q)
    requires ReadsFirst(a, atoms, idx, q, t, v)
    ensures Greedy(a, atoms, idx, q, [v] + tokens) <==> NoSink(a, t.to) && Greedy(a, atoms, idx, t.to, tokens)
  {
    assert ([v] + tokens)[0] == v && ([v] + tokens)[1..] == tokens;
    if Greedy(a, atoms, idx, q, [v] + tokens) {
      GreedyGoesOn(a, atoms, idx, q, t, v, tokens);
    }
    if !NoSink(a, t.to) {
      SinkRejects(a, atoms, idx, t.to, tokens);
    }
  }

  lemma StuckStops(a: Slots, atoms: seq<AtomInfo>, idx: seq<nat>, q: int, tokens: seq<string>)
    requires WellFormed(a, atoms) && |idx| == |atoms| && tokens != [] && !CanRead(a, atoms, q, tokens[0])
    ensures !Greedy(a, atoms, idx, q, tokens) && !ReadsAll(a, atoms, idx, q, tokens)
  {
  }

  lemma TableIndexes(a: Slots, atoms: seq<AtomInfo>, idx: seq<nat>, comp: Compact)
    requires WellFormed(a, atoms) && Represents(a, atoms, idx, comp)
    ensures Indexes(atoms, idx) && Deterministic(a, atoms)
  {
    ConsistentRowsMeanDeterministic(a, atoms, comp.strings, idx);
    forall i, j | 0 <= i < |atoms| && 0 <= j < |atoms| && idx[i] == idx[j]
      ensures atoms[i].text == atoms[j].text
    {
      assert comp.strings[idx[i]] == atoms[i].text;
    }
  }

  /**
   * Pushing all tokens and then the end. An error means that the first transitions to read the tokens do not
   * get through; otherwise the verdict is final exactly when they lead to a final state. Then the automaton
   * accepts the tokens; where the first match covers the others, the verdict is final exactly when it does.
   */
  method PushAll(exec: Exec, tokens: seq<string>, ghost a: Slots, ghost atoms: seq<AtomInfo>, ghost idx: seq<nat>,
                 ghost start: int) returns (r: int)
    requires WellFormed(a, atoms) && Represents(a, atoms, idx, exec.comp)
    requires NoEpsilon(a) && SinksAreDead(a)
    requires exec.At(a, start) && exec.status == 0 && AllPlain(tokens)
    modifies exec`index, exec`status
    ensures r == 1 <==> Greedy(a, atoms, idx, start, tokens)
    ensures r == -1 <==> !ReadsAll(a, atoms, idx, start, tokens)
    ensures r == 1 || r == 0 || r == -1
    ensures r == 1 ==> Accepts(a, TokenMatcher(atoms, tokens), start, Rest(tokens, 0))
    ensures FirstCovers(a, atoms, idx) ==> (r == 1 <==> Accepts(a, TokenMatcher(atoms, tokens), start, Rest(tokens, 0)))
  {
    ghost var q := start;
    TableIndexes(a, atoms, idx, exec.comp);
    assert tokens[0..] == tokens;
    for i := 0 to |tokens|
      invariant exec.At(a, q) && (exec.status == 0 || exec.status == -1)
      invariant Tracks(a, atoms, idx, tokens, i, q, exec.status, start)
    {
      ghost var before, failed := q, exec.status != 0;
      var verdict;
      verdict, q := exec.Push(Some(tokens[i]), a, atoms, idx, q);
      if !failed {
        TracksStep(a, atoms, idx, tokens, i, before, q, verdict, exec.status, start);
      }
    }
    ghost var last;
    r, last := exec.Push(None, a, atoms, idx, q);
    VerdictMeans(a, atoms, idx, start, tokens);
  }

  lemma VerdictMeans(a: Slots, atoms: seq<AtomInfo>, idx: seq<nat>, q: int, tokens: seq<string>)
    requires WellFormed(a, atoms) && NoEpsilon(a) && |idx| == |atoms| && AllPlain(tokens)
    ensures Greedy(a, atoms, idx, q, tokens) ==> Accepts(a, TokenMatcher(atoms, tokens), q, Rest(tokens, 0))
    ensures FirstCovers(a, atoms, idx) && Accepts(a, TokenMatcher(atoms, tokens), q, Rest(tokens, 0)) ==>
      Greedy(a, atoms, idx, q, tokens)
  {
    assert tokens[0..] == tokens;
    if Live(a, q) {
      TokensAreRuns(a, atoms, tokens, 0, q);
    }
    if Greedy(a, atoms, idx, q, tokens) {
      GreedyIsSound(a, atoms, idx, q, tokens);
    } else if FirstCovers(a, atoms, idx) && AcceptsTokens(a, atoms, q, tokens) {
      GreedyIsComplete(a, atoms, idx, q, tokens);
    }
  }

  lemma EndOfTokens(a: Slots, m: Matcher, q: int)
    requires NoEpsilon(a) && Live(a, q)
    ensures Accepts(a, m, q, []) <==> IsFinal(a, q)
  {
    if IsFinal(a, q) {
      AcceptsEmpty(a, m, q);
    } else {
      forall path: seq<Transition>
        ensures !Run(a, m, q, [], path)
      {
        if path != [] && Has(a, q, path[0]) {
          assert NoEpsilonAt(a, q);
        }
      }
    }
  }

  /** From state 0, a* leads to state 1 and ab to the final state 2; from state 1 only another ab leads there. */
  ghost const EXAMPLE: Slots :=
    [Some(State(StartState, [Transition(Some(0), 1), Transition(Some(1), 2)])),
     Some(State(TransState, [Transition(Some(1), 2)])), Some(State(FinalState, []))]

  ghost const EXAMPLE_ATOMS: seq<AtomInfo> := [AtomInfo(true, true, "a*"), AtomInfo(true, true, "ab")]

  ghost const FIRST := Transition(Some(0), 1)
  ghost const SECOND := Transition(Some(1), 2)

  lemma ExampleHas(q: int, t: Transition)
    requires Live(EXAMPLE, q)
    ensures Has(EXAMPLE, q, t) <==> (q == 0 && t == FIRST) || (q <= 1 && t == SECOND)
  {
  }

  lemma ExampleTable()
    ensures WellFormed(EXAMPLE, EXAMPLE_ATOMS) && NoEpsilon(EXAMPLE) && SinksAreDead(EXAMPLE)
  {
    forall q, t | Live(EXAMPLE, q) && Has(EXAMPLE, q, t)
      ensures Usable(t) && t.atom.value < 2 && Live(EXAMPLE, t.to) && EXAMPLE[q].value.kind != SinkState
    {
      ExampleHas(q, t);
    }
  }

  lemma ExampleDeterministic()
    requires WellFormed(EXAMPLE, EXAMPLE_ATOMS)
    ensures Deterministic(EXAMPLE, EXAMPLE_ATOMS)
  {
    forall q, t, u | Live(EXAMPLE, q) && Has(EXAMPLE, q, t) && Has(EXAMPLE, q, u) && Usable(t) && Usable(u)
      && Text(EXAMPLE_ATOMS, t) == Text(EXAMPLE_ATOMS, u)
      ensures t.to == u.to
    {
      ExampleHas(q, t);
      ExampleHas(q, u);
      assert "a*"[1] != "ab"[1];
    }
  }

  lemma ExampleReads(t: Transition)
    requires WellFormed(EXAMPLE, EXAMPLE_ATOMS)
    ensures Reads(EXAMPLE, EXAMPLE_ATOMS, 0, t, "ab") <==> t == FIRST || t == SECOND
  {
    ExampleHas(0, t);
    assert "a*"[1..] == "*" && "ab"[1..] == "b" && "*"[1..] == "" && "b"[1..] == "";
    assert AfterSubstring("b") == AfterSubstring("") == "";
    assert WildcardMatch("*", "b") && WildcardMatch("a*", "ab");
    MatchWithoutStar("ab", "ab");
  }

  lemma ExampleOverlaps()
    requires WellFormed(EXAMPLE, EXAMPLE_ATOMS)
    ensures !NoOverlap(EXAMPLE, EXAMPLE_ATOMS)
  {
    ExampleReads(FIRST);
    ExampleReads(SECOND);
    assert Plain("ab");
  }

  /** The graph accepts the token ab, but the first column leads to a state that is not final. */
  lemma ExampleIsMisled()
    requires WellFormed(EXAMPLE, EXAMPLE_ATOMS)
    ensures AcceptsTokens(EXAMPLE, EXAMPLE_ATOMS, 0, ["ab"]) && !Greedy(EXAMPLE, EXAMPLE_ATOMS, [0, 1], 0, ["ab"])
  {
    ExampleReads(FIRST);
    ExampleReads(SECOND);
    assert AcceptsTokens(EXAMPLE, EXAMPLE_ATOMS, 2, []);
    assert ["ab"][1..] == [];
    forall t | ReadsFirst(EXAMPLE, EXAMPLE_ATOMS, [0, 1], 0, t, "ab")
      ensures t == FIRST
    {
      ExampleReads(t);
    }
  }

  /** The first matching column wins, so determinism alone is not enough. */
  lemma FirstColumnWins()
    ensures WellFormed(EXAMPLE, EXAMPLE_ATOMS) && NoEpsilon(EXAMPLE) && SinksAreDead(EXAMPLE)
    ensures Deterministic(EXAMPLE, EXAMPLE_ATOMS) && !NoOverlap(EXAMPLE, EXAMPLE_ATOMS)
    ensures AcceptsTokens(EXAMPLE, EXAMPLE_ATOMS, 0, ["ab"]) && !Greedy(EXAMPLE, EXAMPLE_ATOMS, [0, 1], 0, ["ab"])
  {
    ExampleTable();
    ExampleDeterministic();
    ExampleOverlaps();
    ExampleIsMisled();
  }

  /** The entry of a string is that of the transitions on it, and names a state of the table. */
  lemma EntryOfTransition(a: Slots, atoms: seq<AtomInfo>, index: seq<nat>, comp: Compact, q: int, t: Transition)
    requires WellFormed(a, atoms) && Represents(a, atoms, index, comp) && Live(a, q) && Has(a, q, t) && Usable(t)
    ensures var k := index[t.atom.value];
            && k < |comp.strings| && comp.strings[k] == Text(atoms, t)
            && comp.table[Cell(Rank(a, q), |comp.strings| + 1, 0) + k + 1] == Rank(a, t.to) + 1
            && Rank(a, t.to) < comp.states
  {
    TargetsOfRow(a, atoms, comp.strings, index, q);
    RowEntryMeaning(a, index, a[q].value.trans, index[t.atom.value]);
    assert Live(a, t.to);
    RankGrows(a, t.to, |a|);
  }

  /** A positive entry comes from a transition on that string. */
  lemma TransitionOfEntry(a: Slots, atoms: seq<AtomInfo>, index: seq<nat>, comp: Compact, q: int, k: nat)
    returns (t: Transition)
    requires WellFormed(a, atoms) && Represents(a, atoms, index, comp) && Live(a, q) && k < |comp.strings|
    requires RowIs(a, index, comp.table, |comp.strings| + 1, q, a[q].value.trans)
    requires comp.table[Cell(Rank(a, q), |comp.strings| + 1, 0) + k + 1] > 0
    ensures Has(a, q, t) && Usable(t) && Text(atoms, t) == comp.strings[k] && index[t.atom.value] == k
    ensures comp.table[Cell(Rank(a, q), |comp.strings| + 1, 0) + k + 1] == Rank(a, t.to) + 1
  {
    TargetsOfRow(a, atoms, comp.strings, index, q);
    RowEntryMeaning(a, index, a[q].value.trans, k);
    t :| t in a[q].value.trans && Usable(t) && index[t.atom.value] == k
      && RowEntry(a, index, a[q].value.trans, k) == Rank(a, t.to) + 1;
  }

  /** No string before column i that state q has an entry for matches the token. */
  ghost predicate NoneBefore(a: Slots, comp: Compact, q: int, i: nat, v: string) {
    forall j :: 0 <= j < i && j < |comp.strings| && EntryAt(a, comp, q, j) > 0 ==> !WildcardMatch(comp.strings[j], v)
  }

  /** The row of a state; for a state that was freed, the spare row. */
  ghost function RowOf(a: Slots, comp: Compact, q: int): nat {
    if Live(a, q) then Rank(a, q) else comp.states
  }

  ghost function EntryAt(a: Slots, comp: Compact, q: int, j: nat): int {
    var c := Cell(RowOf(a, comp, q), |comp.strings| + 1, 0) + j + 1;
    if 0 <= c < |comp.table| then comp.table[c] else 0
  }

  /** The row lies in the table; the spare row is empty. */
  lemma RowInTable(a: Slots, atoms: seq<AtomInfo>, idx: seq<nat>, comp: Compact, q: int)
    requires Represents(a, atoms, idx, comp)
    ensures var width := |comp.strings| + 1;
            var row := Cell(RowOf(a, comp, q), width, 0);
            && 0 <= row && row + width <= |comp.table|
            && comp.table[row] == (if Live(a, q) then KindCode(a[q].value.kind) else 0)
            && (!Live(a, q) ==> forall c :: row <= c < row + width ==> comp.table[c] == 0)
  {
    var width := |comp.strings| + 1;
    if Live(a, q) {
      assert RowIs(a, idx, comp.table, width, q, a[q].value.trans);
    } else {
      assert (comp.states + 1) * width == comp.states * width + width;
    }
  }

  lemma FirstMatch(a: Slots, atoms: seq<AtomInfo>, idx: seq<nat>, comp: Compact, q: int, t: Transition, v: string)
    requires WellFormed(a, atoms) && Represents(a, atoms, idx, comp) && Live(a, q) && Reads(a, atoms, q, t, v)
    requires NoneBefore(a, comp, q, idx[t.atom.value], v)
    ensures ReadsFirst(a, atoms, idx, q, t, v)
  {
    forall u | Reads(a, atoms, q, u, v)
      ensures idx[t.atom.value] <= idx[u.atom.value]
    {
      EntryOfTransition(a, atoms, idx, comp, q, u);
      assert EntryAt(a, comp, q, idx[u.atom.value]) > 0;
    }
  }

  lemma NoMatch(a: Slots, atoms: seq<AtomInfo>, idx: seq<nat>, comp: Compact, q: int, v: string)
    requires WellFormed(a, atoms) && Represents(a, atoms, idx, comp)
    requires NoneBefore(a, comp, q, |comp.strings|, v)
    ensures !CanRead(a, atoms, q, v)
  {
    forall u | Live(a, q) && Has(a, q, u) && Usable(u)
      ensures !WildcardMatch(Text(atoms, u), v)
    {
      EntryOfTransition(a, atoms, idx, comp, q, u);
      assert EntryAt(a, comp, q, idx[u.atom.value]) > 0;
    }
  }

  class Exec {
    const comp: Compact
    var index: nat
    var status: int

    constructor (comp: Compact)
      ensures this.comp == comp && index == 0 && status == 0
    {
      this.comp := comp;
      index, status := 0, 0;
    }

    /** The execution stands in state q of the automaton, or in the spare row if q was freed. */
    ghost predicate At(a: Slots, q: int)
      reads this
    {
      index == RowOf(a, comp, q)
    }

    /** To the state of a table entry, whose kind gives the verdict. */
    method Enter(target: nat, ghost a: Slots, ghost atoms: seq<AtomInfo>, ghost idx: seq<nat>, ghost next: int)
      returns (r: int)
      requires Represents(a, atoms, idx, comp) && Live(a, next) && target == Rank(a, next) && status == 0
      modifies this`index, this`status
      ensures At(a, next) && r == (if a[next].value.kind == SinkState then -1 else if IsFinal(a, next) then 1 else 0)
      ensures status == if r == -1 then -1 else 0
    {
      var width := |comp.strings| + 1;
      assert RowIs(a, idx, comp.table, width, next, a[next].value.trans);
      index := target;
      if comp.table[Cell(target, width, 0)] == KindCode(SinkState) {
        status := -1;
        return -1;
      }
      r := if comp.table[Cell(target, width, 0)] == KindCode(FinalState) then 1 else 0;
    }

    /** One token, or None for the end. A failed execution stays failed. */
    method Push(value: Option<string>, ghost a: Slots, ghost atoms: seq<AtomInfo>, ghost idx: seq<nat>, ghost q: int)
      returns (r: int, ghost next: int)
      requires WellFormed(a, atoms) && Represents(a, atoms, idx, comp) && At(a, q)
      requires value.Some? ==> Plain(value.value)
      modifies this`index, this`status
      ensures At(a, next)
      ensures old(status) != 0 ==> r == status == old(status) && next == q
      ensures old(status) == 0 && value == None ==>
        r == (if Live(a, q) && IsFinal(a, q) then 1 else 0) && next == q && status == 0
      ensures old(status) == 0 && value.Some? ==> Pushed(a, atoms, idx, q, value.value, next, r, status)
    {
      next := q;
      if status != 0 {
        return status, q;
      }
      var width := |comp.strings| + 1;
      RowInTable(a, atoms, idx, comp, q);
      if value == None {
        return if comp.table[Cell(index, width, 0)] == KindCode(FinalState) then 1 else 0, q;
      }
      var v := value.value;
      for i := 0 to |comp.strings|
        invariant index == old(index) && status == 0
        invariant NoneBefore(a, comp, q, i, v)
      {
        assert Cell(index, width, i + 1) == Cell(index, width, 0) + i + 1;
        var target := comp.table[Cell(index, width, i + 1)];
        ghost var t;
        if target > 0 {
          t := TransitionOfEntry(a, atoms, idx, comp, q, i);
          EntryOfTransition(a, atoms, idx, comp, q, t);
        }
        if target > 0 && target <= comp.states {
          target := target - 1;
          var equal := StrEqualWildcard(comp.strings[i], v);
          if equal {
            FirstMatch(a, atoms, idx, comp, q, t, v);
            next := t.to;
            r := Enter(target, a, atoms, idx, next);
            return;
          }
        }
      }
      NoMatch(a, atoms, idx, comp, q, v);
      status := -1;
      r := -1;
    }
  }
}
