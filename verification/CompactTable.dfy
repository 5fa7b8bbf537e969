/** The compact transition table of a deterministic automaton over strings, and pushing tokens through it. */
module CompactTable {
  import opened Results
  import opened Automata

  datatype AtomInfo = AtomInfo(isString: bool, once: bool, text: string)

  /** Row-major table: per state its kind, then per string the target state plus one, or zero. */
  datatype Compact = Compact(table: seq<int>, strings: seq<string>, states: nat)

  /** Not tried and not determinist: the graph is kept. Unsupported: there is no result at all. */
  datatype Outcome = Built(comp: Compact) | NotTried | NotDeterminist | Unsupported

  function KindCode(k: Kind): int {
    match k
    case StartState => 1
    case FinalState => 2
    case TransState => 3
    case SinkState => 4
    case UnreachState => 5
  }

  function Cell(s: int, width: int, k: int): int {
    s * width + k
  }

  /** The number of live slots below i: the new number of state i. */
  ghost function Rank(a: Slots, i: nat): nat
    requires i <= |a|
  {
    if i == 0 then 0 else Rank(a, i - 1) + if a[i - 1].Some? then 1 else 0
  }

  lemma {:induction false} RankGrows(a: Slots, i: nat, j: nat)
    requires i <= j <= |a|
    ensures Rank(a, i) <= Rank(a, j)
    ensures i < j && a[i].Some? ==> Rank(a, i) < Rank(a, j)
  {
    if i < j {
      RankGrows(a, i, j - 1);
    }
  }

  /** Different live states get different new numbers. */
  lemma RankInjective(a: Slots, i: nat, j: nat)
    requires i < |a| && j < |a| && a[i].Some? && a[j].Some? && Rank(a, i) == Rank(a, j)
    ensures i == j
  {
    if i < j {
      RankGrows(a, i, j);
    } else if j < i {
      RankGrows(a, j, i);
    }
  }

  ghost predicate Usable(t: Transition) {
    t.to != -1 && t.atom != None
  }

  /** Every usable transition has a known atom and a live target. */
  ghost predicate WellFormed(a: Slots, atoms: seq<AtomInfo>) {
    forall q, t :: Live(a, q) && Has(a, q, t) && Usable(t) ==> t.atom.value < |atoms| && Live(a, t.to)
  }

  ghost function Text(atoms: seq<AtomInfo>, t: Transition): string
    requires t.atom.Some? && t.atom.value < |atoms|
  {
    atoms[t.atom.value].text
  }

  /** No state has two transitions on the same string to different targets. */
  ghost predicate Deterministic(a: Slots, atoms: seq<AtomInfo>)
    requires WellFormed(a, atoms)
  {
    forall q, t, u ::
      Live(a, q) && Has(a, q, t) && Has(a, q, u) && Usable(t) && Usable(u) && Text(atoms, t) == Text(atoms, u) ==>
        t.to == u.to
  }

  /** The unique strings, and for each atom the index of its string. */
  ghost predicate Numbered(atoms: seq<AtomInfo>, strings: seq<string>, index: seq<nat>) {
    && |index| == |atoms|
    && (forall i, j :: 0 <= i < j < |strings| ==> strings[i] != strings[j])
    && (forall i :: 0 <= i < |atoms| ==> index[i] < |strings| && strings[index[i]] == atoms[i].text)
  }

  ghost predicate StringsOnly(atoms: seq<AtomInfo>) {
    forall i :: 0 <= i < |atoms| ==> atoms[i].isString && atoms[i].once
  }

  lemma StringsOnlyMeans(atoms: seq<AtomInfo>)
    ensures StringsOnly(atoms) <==> forall x :: x in atoms ==> x.isString && x.once
  {
    forall x | x in atoms
      ensures StringsOnly(atoms) ==> x.isString && x.once
    {
      var i :| 0 <= i < |atoms| && atoms[i] == x;
    }
  }

  /** String l appears in an atom before which there are only earlier strings. */
  ghost predicate SeenNext(atoms: seq<AtomInfo>, strings: seq<string>, l: nat)
    requires l < |strings|
  {
    exists i ::
      && 0 <= i < |atoms| && atoms[i].text == strings[l]
      && forall j :: 0 <= j < i ==> atoms[j].text in strings[..l]
  }

  ghost predicate InOrderOfAppearance(atoms: seq<AtomInfo>, strings: seq<string>) {
    forall l :: 0 <= l < |strings| ==> SeenNext(atoms, strings, l)
  }

  lemma AppearsLater(atoms: seq<AtomInfo>, strings: seq<string>, index: seq<nat>, atom: AtomInfo)
    requires Numbered(atoms, strings, index) && InOrderOfAppearance(atoms, strings)
    ensures InOrderOfAppearance(atoms + [atom], strings)
    ensures InOrderOfAppearance(atoms + [atom], strings + [atom.text])
  {
    var more, longer := atoms + [atom], strings + [atom.text];
    forall l | 0 <= l < |strings|
      ensures SeenNext(more, strings, l) && SeenNext(more, longer, l)
    {
      assert SeenNext(atoms, strings, l) && longer[..l] == strings[..l];
      var i :| 0 <= i < |atoms| && atoms[i].text == strings[l] && forall j :: 0 <= j < i ==>
        atoms[j].text in strings[..l];
      assert more[i] == atoms[i];
    }
    forall j | 0 <= j < |atoms|
      ensures more[j].text in longer[..|strings|]
    {
      assert longer[..|strings|][index[j]] == atoms[j].text;
    }
    assert more[|atoms|].text == longer[|strings|];
    assert SeenNext(more, longer, |strings|);
  }

  method NumberStrings(atoms: seq<AtomInfo>) returns (r: Option<(seq<string>, seq<nat>)>)
    ensures r.Some? <==> StringsOnly(atoms)
    ensures r.Some? ==> Numbered(atoms, r.value.0, r.value.1) && InOrderOfAppearance(atoms, r.value.0)
  {
    var strings: seq<string>, index: seq<nat> := [], [];
    for i := 0 to |atoms|
      invariant StringsOnly(atoms[..i])
      invariant Numbered(atoms[..i], strings, index) && InOrderOfAppearance(atoms[..i], strings)
    {
      if !atoms[i].isString || !atoms[i].once {
        return None;
      }
      var j := 0;
      while j < |strings| && strings[j] != atoms[i].text
        invariant j <= |strings|
        invariant forall k :: 0 <= k < j ==> strings[k] != atoms[i].text
      {
        j := j + 1;
      }
      AppearsLater(atoms[..i], strings, index, atoms[i]);
      if j >= |strings| {
        strings := strings + [atoms[i].text];
      }
      index := index + [j];
      assert atoms[..i + 1] == atoms[..i] + [atoms[i]];
    }
    assert atoms[..|atoms|] == atoms;
    r := Some((strings, index));
  }

  /** The table entry of string k after the given transitions: the first target recorded, plus one. */
  ghost function RowEntry(a: Slots, index: seq<nat>, trans: seq<Transition>, k: nat): nat {
    if trans == [] then 0
    else
      var earlier, t := RowEntry(a, index, trans[..|trans| - 1], k), trans[|trans| - 1];
      if earlier != 0 then earlier
      else if Usable(t) && t.atom.value < |index| && index[t.atom.value] == k && 0 <= t.to < |a| then Rank(a, t.to) + 1
      else 0
  }

  ghost predicate SameString(index: seq<nat>, t: Transition, u: Transition) {
    && Usable(t) && Usable(u) && t.atom.value < |index| && u.atom.value < |index|
    && index[t.atom.value] == index[u.atom.value]
  }

  /** All usable transitions on the same string agree on the target. */
  ghost predicate RowConsistent(index: seq<nat>, trans: seq<Transition>) {
    forall t, u :: t in trans && u in trans && SameString(index, t, u) ==> t.to == u.to
  }

  ghost predicate RowTargetsLive(a: Slots, index: seq<nat>, trans: seq<Transition>) {
    forall t :: t in trans && Usable(t) ==> t.atom.value < |index| && Live(a, t.to)
  }

  /** A row entry is zero without a transition on the string, and otherwise names the common target. */
  lemma {:induction false} RowEntryMeaning(a: Slots, index: seq<nat>, trans: seq<Transition>, k: nat)
    requires RowTargetsLive(a, index, trans) && RowConsistent(index, trans)
    ensures forall t :: t in trans && Usable(t) && index[t.atom.value] == k ==>
      RowEntry(a, index, trans, k) == Rank(a, t.to) + 1
    ensures RowEntry(a, index, trans, k) != 0 ==>
      exists t ::
        t in trans && Usable(t) && index[t.atom.value] == k && RowEntry(a, index, trans, k) == Rank(a, t.to) + 1
  {
    if trans != [] {
      var front, last := trans[..|trans| - 1], trans[|trans| - 1];
      assert trans == front + [last];
      RowEntryMeaning(a, index, front, k);
      if RowEntry(a, index, front, k) != 0 {
        var u :| u in front && Usable(u) && index[u.atom.value] == k
          && RowEntry(a, index, front, k) == Rank(a, u.to) + 1;
        assert u in trans;
      }
    }
  }

  /** Recording one more transition: a conflict means the row is not consistent. */
  lemma RowStep(a: Slots, index: seq<nat>, trans: seq<Transition>, t: Transition)
    requires RowTargetsLive(a, index, trans + [t]) && RowConsistent(index, trans)
    requires Usable(t)
    ensures var k, e := index[t.atom.value], RowEntry(a, index, trans, index[t.atom.value]);
            && (e == 0 || e == Rank(a, t.to) + 1 <==> RowConsistent(index, trans + [t]))
            && (e == 0 ==> RowEntry(a, index, trans + [t], k) == Rank(a, t.to) + 1)
            && (e != 0 ==> RowEntry(a, index, trans + [t], k) == e)
            && forall k' :: k' != k ==> RowEntry(a, index, trans + [t], k') == RowEntry(a, index, trans, k')
  {
    var k := index[t.atom.value];
    assert forall u :: u in trans ==> u in trans + [t];
    assert t in trans + [t];
    RowEntryMeaning(a, index, trans, k);
    assert (trans + [t])[..|trans|] == trans;
    if RowEntry(a, index, trans, k) == Rank(a, t.to) + 1 {
      var u :| u in trans && Usable(u) && index[u.atom.value] == k && RowEntry(a, index, trans, k) == Rank(a, u.to) + 1;
      assert Live(a, u.to);
      RankInjective(a, u.to, t.to);
    }
  }

  lemma RowSkip(a: Slots, index: seq<nat>, trans: seq<Transition>, t: Transition)
    requires !Usable(t)
    ensures RowConsistent(index, trans) ==> RowConsistent(index, trans + [t])
    ensures forall k :: RowEntry(a, index, trans + [t], k) == RowEntry(a, index, trans, k)
  {
    assert (trans + [t])[..|trans|] == trans;
  }

  /** Row q of the table: its kind, and one entry per string for the given transitions. */
  ghost predicate RowIs(a: Slots, index: seq<nat>, table: seq<int>, width: nat, q: nat, trans: seq<Transition>) {
    && Live(a, q) && width > 0
    && 0 <= Cell(Rank(a, q), width, 0) && Cell(Rank(a, q), width, 0) + width <= |table|
    && table[Cell(Rank(a, q), width, 0)] == KindCode(a[q].value.kind)
    && forall k :: 0 <= k < width - 1 ==> table[Cell(Rank(a, q), width, 0) + k + 1] == RowEntry(a, index, trans, k)
  }

  ghost predicate StateNumbers(a: Slots, remap: seq<int>) {
    |remap| == |a| && forall i :: 0 <= i < |a| ==> remap[i] == if a[i].Some? then Rank(a, i) else -1
  }

  method NumberStates(a: Slots) returns (remap: seq<int>, states: nat)
    ensures StateNumbers(a, remap) && states == Rank(a, |a|)
  {
    remap, states := [], 0;
    for i := 0 to |a|
      invariant |remap| == i && states == Rank(a, i)
      invariant forall j :: 0 <= j < i ==> remap[j] == if a[j].Some? then Rank(a, j) else -1
    {
      if a[i].Some? {
        remap, states := remap + [states], states + 1;
      } else {
        remap := remap + [-1];
      }
    }
  }

  /** Records one transition in the row; false means that another target is recorded for its string. */
  method FillEntry(table: array<int>, a: Slots, index: seq<nat>, remap: seq<int>, width: nat, q: nat, t: Transition,
                   ghost done: seq<Transition>) returns (ok: bool)
    requires Live(a, q) && StateNumbers(a, remap)
    requires RowTargetsLive(a, index, done + [t]) && RowConsistent(index, done)
    requires forall i :: 0 <= i < |index| ==> index[i] < width - 1
    requires RowIs(a, index, table[..], width, q, done) && Usable(t)
    modifies table
    ensures ok <==> RowConsistent(index, done + [t])
    ensures ok ==> RowIs(a, index, table[..], width, q, done + [t])
    ensures OnlyRowChanged(old(table[..]), table[..], Cell(Rank(a, q), width, 0), width)
  {
    ghost var row := Cell(Rank(a, q), width, 0);
    RowStep(a, index, done, t);
    assert t in done + [t];
    var k := index[t.atom.value];
    var target := remap[t.to];
    var cell := Cell(remap[q], width, k + 1);
    assert cell == row + k + 1;
    var prev := table[cell];
    if prev != 0 {
      return prev == target + 1;
    }
    table[cell] := target + 1;
    ok := true;
  }

  /** Records the transitions of one state; stops at a conflict. */
  method FillRow(table: array<int>, a: Slots, index: seq<nat>, remap: seq<int>, width: nat, q: nat) returns (ok: bool)
    requires Live(a, q) && StateNumbers(a, remap)
    requires RowTargetsLive(a, index, a[q].value.trans)
    requires forall i :: 0 <= i < |index| ==> index[i] < width - 1
    requires RowIs(a, index, table[..], width, q, [])
    modifies table
    ensures ok <==> RowConsistent(index, a[q].value.trans)
    ensures ok ==> RowIs(a, index, table[..], width, q, a[q].value.trans)
    ensures OnlyRowChanged(old(table[..]), table[..], Cell(Rank(a, q), width, 0), width)
  {
    ghost var row := Cell(Rank(a, q), width, 0);
    var trans := a[q].value.trans;
    for j := 0 to |trans|
      invariant RowConsistent(index, trans[..j])
      invariant RowIs(a, index, table[..], width, q, trans[..j])
      invariant OnlyRowChanged(old(table[..]), table[..], row, width)
    {
      var t := trans[j];
      assert trans[..j + 1] == trans[..j] + [t];
      if t.to == -1 || t.atom == None {
        RowSkip(a, index, trans[..j], t);
      } else {
        PrefixTargetsLive(a, index, trans, j + 1);
        var entered := FillEntry(table, a, index, remap, width, q, t, trans[..j]);
        if !entered {
          ConflictStays(index, trans, j + 1);
          return false;
        }
      }
    }
    assert trans[..|trans|] == trans;
    ok := true;
  }

  lemma PrefixTargetsLive(a: Slots, index: seq<nat>, trans: seq<Transition>, j: nat)
    requires RowTargetsLive(a, index, trans) && j <= |trans|
    ensures RowTargetsLive(a, index, trans[..j])
  {
    assert forall u :: u in trans[..j] ==> u in trans;
  }

  lemma ConflictStays(index: seq<nat>, trans: seq<Transition>, j: nat)
    requires j <= |trans| && !RowConsistent(index, trans[..j])
    ensures !RowConsistent(index, trans)
  {
    var t, u :| t in trans[..j] && u in trans[..j] && SameString(index, t, u) && t.to != u.to;
    assert t in trans && u in trans;
  }

  /** The table stands for the automaton. */
  ghost predicate Represents(a: Slots, atoms: seq<AtomInfo>, index: seq<nat>, comp: Compact) {
    && Numbered(atoms, comp.strings, index)
    && comp.states == Rank(a, |a|) && SpareRow(comp.table, comp.states, |comp.strings| + 1)
    && forall q :: Live(a, q) ==>
      RowConsistent(index, a[q].value.trans) && RowIs(a, index, comp.table, |comp.strings| + 1, q, a[q].value.trans)
  }

  /** After the rows of the states the table has one more row, which is all zeros. */
  ghost predicate SpareRow(table: seq<int>, states: nat, width: nat) {
    |table| == (states + 1) * width && ZeroFrom(table, states * width)
  }

  lemma ConsistentRowsMeanDeterministic(a: Slots, atoms: seq<AtomInfo>, strings: seq<string>, index: seq<nat>)
    requires WellFormed(a, atoms) && Numbered(atoms, strings, index)
    ensures Deterministic(a, atoms) <==> forall q :: Live(a, q) ==> RowConsistent(index, a[q].value.trans)
  {
    forall q, t, u | Live(a, q) && Has(a, q, t) && Has(a, q, u) && Usable(t) && Usable(u)
      ensures Text(atoms, t) == Text(atoms, u) <==> SameString(index, t, u)
    {
      assert strings[index[t.atom.value]] == Text(atoms, t);
      assert strings[index[u.atom.value]] == Text(atoms, u);
    }
    if Deterministic(a, atoms) {
      forall q | Live(a, q)
        ensures RowConsistent(index, a[q].value.trans)
      {
        forall t, u | t in a[q].value.trans && u in a[q].value.trans && SameString(index, t, u)
          ensures t.to == u.to
        {
          assert Has(a, q, t) && Has(a, q, u);
        }
      }
    }
    if forall q :: Live(a, q) ==> RowConsistent(index, a[q].value.trans) {
      forall q, t, u | Live(a, q) && Has(a, q, t) && Has(a, q, u) && Usable(t) && Usable(u)
        && Text(atoms, t) == Text(atoms, u)
        ensures t.to == u.to
      {
        assert RowConsistent(index, a[q].value.trans);
      }
    }
  }

  /** Rows filled so far, and zeros from the next row on. */
  ghost predicate RowsUpTo(a: Slots, index: seq<nat>, table: seq<int>, width: nat, i: nat) {
    && i <= |a| && |table| == (Rank(a, |a|) + 1) * width
    && RowsDone(a, index, table, width, i)
    && ZeroFrom(table, Rank(a, i) * width)
  }

  ghost predicate RowsDone(a: Slots, index: seq<nat>, table: seq<int>, width: nat, i: nat) {
    forall q :: 0 <= q < i && q < |a| && Live(a, q) ==> RowDone(a, index, table, width, q)
  }

  ghost predicate RowDone(a: Slots, index: seq<nat>, table: seq<int>, width: nat, q: nat) {
    && Live(a, q) && RowConsistent(index, a[q].value.trans) && RowIs(a, index, table, width, q, a[q].value.trans)
  }

  ghost predicate ZeroFrom(table: seq<int>, from: int) {
    forall c :: 0 <= c < |table| && from <= c ==> table[c] == 0
  }

  lemma RowsApart(a: Slots, p: nat, q: nat, width: nat)
    requires p < q < |a| && Live(a, p) && Live(a, q)
    ensures Cell(Rank(a, p), width, 0) + width <= Cell(Rank(a, q), width, 0)
  {
    RankGrows(a, p, q);
    NextRow(Rank(a, p), Rank(a, q), width);
  }

  lemma NextRow(r: nat, s: nat, width: nat)
    requires r < s
    ensures r * width + width <= s * width
  {
    assert (r + 1) * width == r * width + width;
    assert (r + 1) * width <= s * width;
  }

  lemma RowFits(a: Slots, q: nat, width: nat)
    requires q < |a| && Live(a, q)
    ensures 0 <= Cell(Rank(a, q), width, 0) && Cell(Rank(a, q), width, 0) + width <= (Rank(a, |a|) + 1) * width
    ensures Rank(a, q + 1) * width == Cell(Rank(a, q), width, 0) + width
  {
    RankGrows(a, q, |a|);
    NextRow(Rank(a, q), Rank(a, |a|) + 1, width);
    assert (Rank(a, q) + 1) * width == Rank(a, q) * width + width;
  }

  /** Filling row i leaves the earlier rows alone. */
  lemma RowsExtend(a: Slots, index: seq<nat>, before: seq<int>, after: seq<int>, width: nat, i: nat)
    requires RowsUpTo(a, index, before, width, i) && i < |a| && Live(a, i) && |after| == |before|
    requires RowConsistent(index, a[i].value.trans) && RowIs(a, index, after, width, i, a[i].value.trans)
    requires OnlyRowChanged(before, after, Cell(Rank(a, i), width, 0), width)
    ensures RowsUpTo(a, index, after, width, i + 1)
  {
    EarlierRowsKept(a, index, before, after, width, i);
    RowFits(a, i, width);
    ZeroAfterRow(before, after, Cell(Rank(a, i), width, 0), width);
  }

  ghost predicate OnlyRowChanged(before: seq<int>, after: seq<int>, row: int, width: nat) {
    |after| == |before| && forall c :: 0 <= c < |after| && !(row <= c < row + width) ==> after[c] == before[c]
  }

  lemma EarlierRowsKept(a: Slots, index: seq<nat>, before: seq<int>, after: seq<int>, width: nat, i: nat)
    requires RowsDone(a, index, before, width, i) && i < |a| && RowDone(a, index, after, width, i)
    requires OnlyRowChanged(before, after, Cell(Rank(a, i), width, 0), width)
    ensures RowsDone(a, index, after, width, i + 1)
  {
    forall q | 0 <= q < i && Live(a, q)
      ensures RowDone(a, index, after, width, q)
    {
      EarlierRowKept(a, index, before, after, width, q, i);
    }
  }

  lemma ZeroAfterRow(before: seq<int>, after: seq<int>, row: int, width: nat)
    requires ZeroFrom(before, row) && OnlyRowChanged(before, after, row, width)
    ensures ZeroFrom(after, row + width)
  {
  }

  lemma EarlierRowKept(a: Slots, index: seq<nat>, before: seq<int>, after: seq<int>, width: nat, q: nat, i: nat)
    requires q < i < |a| && Live(a, i) && RowDone(a, index, before, width, q)
    requires OnlyRowChanged(before, after, Cell(Rank(a, i), width, 0), width)
    ensures RowDone(a, index, after, width, q)
  {
    RowsApart(a, q, i, width);
    RowKept(a, index, before, after, width, q, a[q].value.trans);
  }

  lemma RowKept(a: Slots, index: seq<nat>, before: seq<int>, after: seq<int>, width: nat, q: nat,
                trans: seq<Transition>)
    requires RowIs(a, index, before, width, q, trans) && |after| == |before|
    requires var row := Cell(Rank(a, q), width, 0);
             forall c :: row <= c < row + width ==> after[c] == before[c]
    ensures RowIs(a, index, after, width, q, trans)
  {
  }

  /**
   * Builds the table, if it is tried at all. It is refused exactly for atoms that are not plain strings and
   * for automata that are not deterministic; otherwise it represents the automaton.
   */
  method BuildTable(a: Slots, atoms: seq<AtomInfo>, determinist: bool) returns (r: Outcome, ghost index: seq<nat>)
    requires WellFormed(a, atoms)
    ensures r.NotTried? <==> !determinist || atoms == [] || !atoms[0].isString
    ensures r.Unsupported? <==>
      determinist && atoms != [] && atoms[0].isString && exists x :: x in atoms && !(x.isString && x.once)
    ensures r.NotDeterminist? <==>
      && determinist && atoms != [] && (forall x :: x in atoms ==> x.isString && x.once)
      && !Deterministic(a, atoms)
    ensures r.Built? ==> Represents(a, atoms, index, r.comp) && InOrderOfAppearance(atoms, r.comp.strings)
  {
    index := [];
    if !determinist || |atoms| == 0 || !atoms[0].isString {
      return NotTried, [];
    }
    var remap, states := NumberStates(a);
    var numbered := NumberStrings(atoms);
    StringsOnlyMeans(atoms);
    if numbered == None {
      return Unsupported, [];
    }
    var (strings, idx) := numbered.value;
    index := idx;
    var width := |strings| + 1;
    var table := new int[(states + 1) * width](_ => 0);
    for i := 0 to |a|
      invariant RowsUpTo(a, idx, table[..], width, i)
    {
      if remap[i] != -1 {
        assert Live(a, i);
        RowFits(a, i, width);
        ghost var before := table[..];
        TargetsOfRow(a, atoms, strings, idx, i);
        table[Cell(remap[i], width, 0)] := KindCode(a[i].value.kind);
        var ok := FillRow(table, a, idx, remap, width, i);
        if !ok {
          ConflictMeansNondeterministic(a, atoms, strings, idx, i);
          return NotDeterminist, idx;
        }
        RowsExtend(a, idx, before, table[..], width, i);
      }
    }
    r := Built(Compact(table[..], strings, states));
    RowsMakeTable(a, atoms, idx, r.comp);
  }

  lemma ConflictMeansNondeterministic(a: Slots, atoms: seq<AtomInfo>, strings: seq<string>, index: seq<nat>, q: nat)
    requires WellFormed(a, atoms) && Numbered(atoms, strings, index) && Live(a, q)
    requires !RowConsistent(index, a[q].value.trans)
    ensures !Deterministic(a, atoms)
  {
    ConsistentRowsMeanDeterministic(a, atoms, strings, index);
  }

  lemma RowsMakeTable(a: Slots, atoms: seq<AtomInfo>, index: seq<nat>, comp: Compact)
    requires WellFormed(a, atoms) && Numbered(atoms, comp.strings, index) && comp.states == Rank(a, |a|)
    requires RowsUpTo(a, index, comp.table, |comp.strings| + 1, |a|)
    ensures Represents(a, atoms, index, comp) && Deterministic(a, atoms)
  {
    forall q | Live(a, q)
      ensures RowDone(a, index, comp.table, |comp.strings| + 1, q)
    {
    }
    ConsistentRowsMeanDeterministic(a, atoms, comp.strings, index);
  }

  lemma TargetsOfRow(a: Slots, atoms: seq<AtomInfo>, strings: seq<string>, index: seq<nat>, q: nat)
    requires WellFormed(a, atoms) && Numbered(atoms, strings, index) && Live(a, q)
    ensures RowTargetsLive(a, index, a[q].value.trans)
  {
    forall t | t in a[q].value.trans && Usable(t)
      ensures t.atom.value < |index| && Live(a, t.to)
    {
      assert Has(a, q, t);
    }
  }
}
