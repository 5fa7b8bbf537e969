/** Antichains of schemas, kept minimal or maximal, and their minimal hitting sets. */
module MonotoneSets {
  import opened Results
  import opened Hypergraphs
  import opened Schemas

  ghost function FamilyOf(list: seq<Schema>): Family {
    set s | s in list :: s.bits
  }

  ghost predicate SameSize(list: seq<Schema>, n: nat) {
    forall s :: s in list ==> s.size == n
  }

  /** Which schema may stay when both are offered: the smaller one in a minimal set, the larger one in a maximal set. */
  ghost predicate Dominates(isMinimal: bool, a: Edge, b: Edge) {
    if isMinimal then a <= b else b <= a
  }

  ghost function Extremal(isMinimal: bool, f: Family): Family {
    if isMinimal then MinimalMembers(f) else MaximalMembers(f)
  }

  ghost predicate Incomparable(s: Schema, t: Schema) {
    s.size == t.size && !(s.bits <= t.bits) && !(t.bits <= s.bits)
  }

  /** A duplicate-free antichain of schemas of one size. */
  ghost predicate IsAntichainList(list: seq<Schema>) {
    list == [] ||
    var front, last := list[..|list| - 1], list[|list| - 1];
    IsAntichainList(front) && forall s :: s in front ==> Incomparable(s, last)
  }

  lemma {:induction false} PairIncomparable(list: seq<Schema>, i: nat, j: nat)
    requires IsAntichainList(list) && i < j < |list|
    ensures Incomparable(list[i], list[j])
  {
    var front := list[..|list| - 1];
    if j < |list| - 1 {
      PairIncomparable(front, i, j);
    } else {
      assert list[i] == front[i];
    }
  }

  lemma MembersIncomparable(list: seq<Schema>)
    requires IsAntichainList(list)
    ensures forall s, t :: s in list && t in list ==> s == t || Incomparable(s, t)
  {
    forall s, t | s in list && t in list && s != t
      ensures Incomparable(s, t)
    {
      var i :| 0 <= i < |list| && list[i] == s;
      var j :| 0 <= j < |list| && list[j] == t;
      if i < j {
        PairIncomparable(list, i, j);
      } else {
        PairIncomparable(list, j, i);
      }
    }
  }

  lemma OneSize(list: seq<Schema>)
    requires IsAntichainList(list)
    ensures forall s, t :: s in list && t in list ==> s.size == t.size
  {
    MembersIncomparable(list);
  }

  lemma NoMemberContainsAnother(list: seq<Schema>)
    requires IsAntichainList(list)
    ensures forall s, t :: s in list && t in list && s.bits <= t.bits ==> s == t
  {
    MembersIncomparable(list);
  }

  lemma AntichainSnoc(list: seq<Schema>, last: Schema)
    requires IsAntichainList(list)
    requires forall s :: s in list ==> Incomparable(s, last)
    ensures IsAntichainList(list + [last])
  {
    assert (list + [last])[..|list|] == list;
  }

  /** What remains of a list once everything the new schema dominates is taken out. */
  ghost function Kept(isMinimal: bool, list: seq<Schema>, x: Edge): seq<Schema> {
    if list == [] then []
    else
      var last := list[|list| - 1];
      Kept(isMinimal, list[..|list| - 1], x) + if Dominates(isMinimal, x, last.bits) then [] else [last]
  }

  lemma {:induction false} KeptMembers(isMinimal: bool, list: seq<Schema>, x: Edge)
    ensures forall s :: s in Kept(isMinimal, list, x) <==> s in list && !Dominates(isMinimal, x, s.bits)
    ensures |Kept(isMinimal, list, x)| <= |list|
  {
    if list != [] {
      var front := list[..|list| - 1];
      KeptMembers(isMinimal, front, x);
      assert list == front + [list[|list| - 1]];
    }
  }

  lemma KeptIncomparable(isMinimal: bool, list: seq<Schema>, x: Edge, last: Schema)
    requires forall s :: s in list ==> Incomparable(s, last)
    ensures forall s :: s in Kept(isMinimal, list, x) ==> Incomparable(s, last)
  {
    KeptMembers(isMinimal, list, x);
  }

  lemma {:induction false} KeptAntichain(isMinimal: bool, list: seq<Schema>, x: Edge)
    requires IsAntichainList(list)
    ensures IsAntichainList(Kept(isMinimal, list, x))
  {
    if list != [] {
      var front, last := list[..|list| - 1], list[|list| - 1];
      KeptAntichain(isMinimal, front, x);
      KeptMembers(isMinimal, front, x);
      var kept := Kept(isMinimal, front, x);
      if Dominates(isMinimal, x, last.bits) {
        assert Kept(isMinimal, list, x) == kept;
      } else {
        KeptIncomparable(isMinimal, front, x, last);
        AntichainSnoc(kept, last);
      }
    }
  }

  /** The scan has gone over the first `seen` schemas of `before`; `now` is the list and i the iterator position. */
  ghost predicate Scanned(isMinimal: bool, before: seq<Schema>, x: Edge, seen: nat, now: seq<Schema>, i: int) {
    && seen <= |before|
    && now == Kept(isMinimal, before[..seen], x) + before[seen..]
    && i == |Kept(isMinimal, before[..seen], x)|
    && forall j :: 0 <= j < seen ==> !Dominates(isMinimal, before[j].bits, x)
  }

  lemma ScanStart(isMinimal: bool, before: seq<Schema>, x: Edge)
    ensures Scanned(isMinimal, before, x, 0, before, 0)
  {
  }

  /** One more schema scanned: removing it, or moving past it, keeps the list in step with the specification. */
  lemma ScanStep(isMinimal: bool, before: seq<Schema>, x: Edge, seen: nat, now: seq<Schema>, i: int)
    requires Scanned(isMinimal, before, x, seen, now, i) && i < |now|
    ensures seen < |before| && now[i] == before[seen]
    ensures !Dominates(isMinimal, before[seen].bits, x) ==>
      if Dominates(isMinimal, x, before[seen].bits)
      then Scanned(isMinimal, before, x, seen + 1, now[..i] + now[i + 1..], i)
      else Scanned(isMinimal, before, x, seen + 1, now, i + 1)
  {
    assert before[..seen + 1][..seen] == before[..seen];
    assert before[seen..] == [before[seen]] + before[seen + 1..];
  }

  lemma ScanEnd(isMinimal: bool, before: seq<Schema>, x: Schema, seen: nat, now: seq<Schema>, i: int)
    requires Scanned(isMinimal, before, x.bits, seen, now, i) && i >= |now|
    ensures seen == |before| && now + [x] == Added(isMinimal, before, x)
  {
    assert before[..|before|] == before;
  }

  /**
   * Nothing is rejected after something was removed: an antichain cannot hold both a dominator and a
   * dominated schema.
   */
  lemma {:induction false} RejectionComesFirst(isMinimal: bool, list: seq<Schema>, x: Edge, k: nat)
    requires IsAntichainList(list) && k < |list|
    requires Dominates(isMinimal, list[k].bits, x)
    ensures Kept(isMinimal, list[..k], x) + list[k..] == list
    ensures forall s: Schema :: s.bits == x ==> Rejects(isMinimal, list, s)
  {
    assert list[k] in list;
    forall j | 0 <= j < k
      ensures !Dominates(isMinimal, list[k].bits, list[j].bits)
    {
      PairIncomparable(list, j, k);
    }
    NothingToRemove(isMinimal, list[..k], x, list[k].bits);
  }

  lemma {:induction false} NothingToRemove(isMinimal: bool, list: seq<Schema>, x: Edge, y: Edge)
    requires Dominates(isMinimal, y, x)
    requires forall j :: 0 <= j < |list| ==> !Dominates(isMinimal, y, list[j].bits)
    ensures Kept(isMinimal, list, x) == list
  {
    if list != [] {
      NothingToRemove(isMinimal, list[..|list| - 1], x, y);
    }
  }

  /** Accepting: the kept schemas and the new one are the extremal members of everything seen. */
  lemma AcceptedFamily(isMinimal: bool, list: seq<Schema>, x: Schema)
    requires IsAntichainList(list)
    requires forall s :: s in list ==> !Dominates(isMinimal, s.bits, x.bits)
    ensures FamilyOf(Kept(isMinimal, list, x.bits) + [x]) == Extremal(isMinimal, FamilyOf(list) + {x.bits})
  {
    var all := FamilyOf(list) + {x.bits};
    var kept := Kept(isMinimal, list, x.bits) + [x];
    KeptMembers(isMinimal, list, x.bits);
    NoMemberContainsAnother(list);
    forall e
      ensures e in FamilyOf(kept) <==> e in all && !StrictlyDominated(isMinimal, e, all)
    {
      if e in FamilyOf(kept) {
        var s :| s in kept && s.bits == e;
        assert e in all;
      }
      if e in all && !StrictlyDominated(isMinimal, e, all) {
        if e != x.bits {
          var s :| s in list && s.bits == e;
          assert s in kept;
        } else {
          assert x in kept;
        }
      }
    }
    ExtremalMeansUndominated(isMinimal, all);
  }

  /** Rejecting: the list already holds the extremal members of everything seen. */
  lemma RejectedFamily(isMinimal: bool, list: seq<Schema>, x: Schema)
    requires IsAntichainList(list)
    requires exists s :: s in list && Dominates(isMinimal, s.bits, x.bits)
    ensures FamilyOf(list) == Extremal(isMinimal, FamilyOf(list) + {x.bits})
  {
    var all := FamilyOf(list) + {x.bits};
    NoMemberContainsAnother(list);
    var s :| s in list && Dominates(isMinimal, s.bits, x.bits);
    assert s.bits in all;
    forall e
      ensures e in FamilyOf(list) <==> e in all && !StrictlyDominated(isMinimal, e, all)
    {
      if e in FamilyOf(list) {
        forall y | y in all && y != e
          ensures !Dominates(isMinimal, y, e)
        {
        }
      }
    }
    ExtremalMeansUndominated(isMinimal, all);
  }

  ghost predicate StrictlyDominated(isMinimal: bool, e: Edge, f: Family) {
    exists y :: y in f && y != e && Dominates(isMinimal, y, e)
  }

  lemma ExtremalMeansUndominated(isMinimal: bool, f: Family)
    ensures forall e :: e in Extremal(isMinimal, f) <==> e in f && !StrictlyDominated(isMinimal, e, f)
  {
    forall e | e in f
      ensures e in Extremal(isMinimal, f) <==> !StrictlyDominated(isMinimal, e, f)
    {
      forall y | y in f && y != e
        ensures if isMinimal then y < e <==> y <= e else e < y <==> e <= y
      {
      }
    }
  }

  ghost predicate SizesAgree(list: seq<Schema>, x: Schema) {
    list == [] || list[0].size == x.size
  }

  ghost predicate Rejects(isMinimal: bool, list: seq<Schema>, x: Schema) {
    exists s :: s in list && Dominates(isMinimal, s.bits, x.bits)
  }

  /** The list after offering x to it. */
  ghost function Added(isMinimal: bool, list: seq<Schema>, x: Schema): seq<Schema> {
    if Rejects(isMinimal, list, x) then list else Kept(isMinimal, list, x.bits) + [x]
  }

  lemma KeptAreIncomparable(isMinimal: bool, list: seq<Schema>, x: Schema)
    requires IsAntichainList(list) && SizesAgree(list, x) && !Rejects(isMinimal, list, x)
    ensures forall s :: s in Kept(isMinimal, list, x.bits) ==> Incomparable(s, x)
  {
    KeptMembers(isMinimal, list, x.bits);
    OneSize(list);
    forall s | s in Kept(isMinimal, list, x.bits)
      ensures Incomparable(s, x)
    {
      assert s in list && list[0] in list;
    }
  }

  lemma AddedIsAntichain(isMinimal: bool, list: seq<Schema>, x: Schema)
    requires IsAntichainList(list) && SizesAgree(list, x)
    ensures IsAntichainList(Added(isMinimal, list, x))
    ensures forall s :: s in Added(isMinimal, list, x) ==> s in list || s == x
  {
    if !Rejects(isMinimal, list, x) {
      KeptMembers(isMinimal, list, x.bits);
      KeptAntichain(isMinimal, list, x.bits);
      KeptAreIncomparable(isMinimal, list, x);
      AntichainSnoc(Kept(isMinimal, list, x.bits), x);
    }
  }

  /**
   * Offering a schema keeps the list a duplicate-free antichain: exactly the extremal members of all
   * schemas offered so far.
   */
  lemma AddedIsExtremal(isMinimal: bool, list: seq<Schema>, x: Schema)
    requires IsAntichainList(list) && SizesAgree(list, x)
    ensures IsAntichainList(Added(isMinimal, list, x))
    ensures FamilyOf(Added(isMinimal, list, x)) == Extremal(isMinimal, FamilyOf(list) + {x.bits})
    ensures forall s :: s in Added(isMinimal, list, x) ==> s in list || s == x
  {
    AddedIsAntichain(isMinimal, list, x);
    if Rejects(isMinimal, list, x) {
      RejectedFamily(isMinimal, list, x);
    } else {
      AcceptedFamily(isMinimal, list, x);
    }
  }

  /** What is left of a list without the schemas that have the given bits. */
  ghost function Removed(list: seq<Schema>, x: Edge): seq<Schema> {
    if list == [] then []
    else
      var last := list[|list| - 1];
      Removed(list[..|list| - 1], x) + if last.bits == x then [] else [last]
  }

  lemma {:induction false} RemovedMembers(list: seq<Schema>, x: Edge)
    ensures forall s :: s in Removed(list, x) <==> s in list && s.bits != x
  {
    if list != [] {
      var front := list[..|list| - 1];
      RemovedMembers(front, x);
      assert list == front + [list[|list| - 1]];
    }
  }

  lemma RemovedFamily(list: seq<Schema>, x: Edge)
    ensures FamilyOf(Removed(list, x)) == FamilyOf(list) - {x}
  {
    RemovedMembers(list, x);
  }

  /** Removing keeps an antichain, and takes away exactly one member of its family. */
  lemma {:induction false} RemovedIsAntichain(list: seq<Schema>, x: Edge)
    requires IsAntichainList(list)
    ensures IsAntichainList(Removed(list, x))
    ensures FamilyOf(Removed(list, x)) == FamilyOf(list) - {x}
  {
    RemovedFamily(list, x);
    if list != [] {
      var front, last := list[..|list| - 1], list[|list| - 1];
      RemovedIsAntichain(front, x);
      RemovedMembers(front, x);
      if last.bits == x {
        assert Removed(list, x) == Removed(front, x);
      } else {
        AntichainSnoc(Removed(front, x), last);
      }
    }
  }

  lemma {:induction false} NothingRemoved(list: seq<Schema>, x: Edge)
    requires forall s :: s in list ==> s.bits != x
    ensures Removed(list, x) == list
  {
    if list != [] {
      NothingRemoved(list[..|list| - 1], x);
      assert list[|list| - 1] in list;
    }
  }

  /** In an antichain it is enough to take out the first schema with these bits. */
  lemma {:induction false} FirstIsTheOnlyOne(list: seq<Schema>, i: nat)
    requires IsAntichainList(list) && i < |list|
    ensures Removed(list, list[i].bits) == list[..i] + list[i + 1..]
  {
    var front, last, x := list[..|list| - 1], list[|list| - 1], list[i].bits;
    if i == |list| - 1 {
      forall s | s in front
        ensures s.bits != x
      {
        assert Incomparable(s, last);
      }
      NothingRemoved(front, x);
    } else {
      assert front[i] == list[i];
      PairIncomparable(list, i, |list| - 1);
      FirstIsTheOnlyOne(front, i);
      assert list[..i] + list[i + 1..] == front[..i] + front[i + 1..] + [last];
    }
  }

  ghost function ComplementOf(s: Schema, universe: Schema): Schema {
    Schema(universe.bits - s.bits, universe.size)
  }

  ghost function ComplementList(list: seq<Schema>, universe: Schema): (r: seq<Schema>)
    ensures |r| == |list|
  {
    if list == [] then []
    else ComplementList(list[..|list| - 1], universe) + [ComplementOf(list[|list| - 1], universe)]
  }

  ghost predicate Within(list: seq<Schema>, universe: Schema) {
    forall s :: s in list ==> s.size == universe.size && s.bits <= universe.bits
  }

  lemma {:induction false} ComplementListAt(list: seq<Schema>, universe: Schema)
    ensures forall i :: 0 <= i < |list| ==> ComplementList(list, universe)[i] == ComplementOf(list[i], universe)
  {
    if list != [] {
      ComplementListAt(list[..|list| - 1], universe);
    }
  }

  lemma ComplementListFamily(list: seq<Schema>, universe: Schema)
    ensures FamilyOf(ComplementList(list, universe)) == Complements(FamilyOf(list), universe.bits)
  {
    var c := ComplementList(list, universe);
    ComplementListAt(list, universe);
    forall e | e in FamilyOf(c)
      ensures e in Complements(FamilyOf(list), universe.bits)
    {
      var i :| 0 <= i < |c| && c[i].bits == e;
      assert list[i].bits in FamilyOf(list);
    }
    forall e | e in Complements(FamilyOf(list), universe.bits)
      ensures e in FamilyOf(c)
    {
      var i :| 0 <= i < |list| && universe.bits - list[i].bits == e;
      assert c[i] in c;
    }
  }

  /** Complementing twice gives the list back, in the same order. */
  lemma {:induction false} ComplementInvolutive(list: seq<Schema>, universe: Schema)
    requires Within(list, universe)
    ensures ComplementList(ComplementList(list, universe), universe) == list
  {
    if list != [] {
      var front, last := list[..|list| - 1], list[|list| - 1];
      ComplementInvolutive(front, universe);
      assert ComplementList(list, universe)[..|front|] == ComplementList(front, universe);
      assert last.bits == universe.bits - (universe.bits - last.bits);
      assert list == front + [last];
    }
  }

  lemma ComplementIncomparable(s: Schema, t: Schema, universe: Schema)
    requires Incomparable(s, t) && s.size == t.size == universe.size
    requires s.bits <= universe.bits && t.bits <= universe.bits
    ensures Incomparable(ComplementOf(s, universe), ComplementOf(t, universe))
  {
    ComplementReversesInclusion(s.bits, t.bits, universe.bits);
    ComplementReversesInclusion(t.bits, s.bits, universe.bits);
  }

  lemma {:induction false} AddIncomparable(isMinimal: bool, list: seq<Schema>, x: Schema)
    requires forall s :: s in list ==> Incomparable(s, x)
    ensures Added(isMinimal, list, x) == list + [x]
  {
    KeepIncomparable(isMinimal, list, x);
  }

  lemma {:induction false} KeepIncomparable(isMinimal: bool, list: seq<Schema>, x: Schema)
    requires forall s :: s in list ==> Incomparable(s, x)
    ensures Kept(isMinimal, list, x.bits) == list
  {
    if list != [] {
      KeepIncomparable(isMinimal, list[..|list| - 1], x);
      assert list[|list| - 1] in list;
    }
  }

  /**
   * The complements of an antichain are accepted one after the other: no complement is rejected and none
   * removes another.
   */
  lemma ComplementsAreAccepted(isMinimal: bool, list: seq<Schema>, k: nat, universe: Schema)
    requires IsAntichainList(list) && k < |list| && Within(list[..k + 1], universe)
    ensures Added(isMinimal, ComplementList(list[..k], universe), ComplementOf(list[k], universe))
         == ComplementList(list[..k + 1], universe)
    ensures SizesAgree(ComplementList(list[..k], universe), ComplementOf(list[k], universe))
  {
    var c, x := ComplementList(list[..k], universe), ComplementOf(list[k], universe);
    ComplementListAt(list[..k], universe);
    forall s | s in c
      ensures Incomparable(s, x)
    {
      var i :| 0 <= i < k && c[i] == s;
      PairIncomparable(list, i, k);
      assert list[i] in list[..k + 1] && list[k] in list[..k + 1];
      ComplementIncomparable(list[i], list[k], universe);
    }
    AddIncomparable(isMinimal, c, x);
    assert list[..k + 1][..k] == list[..k];
  }

  lemma SizesDiffer(list: seq<Schema>, x: Schema, k: nat)
    requires IsAntichainList(list) && k < |list| && list[k].size != x.size
    ensures !SizesAgree(list, x)
  {
    OneSize(list);
    assert list[0] in list && list[k] in list;
  }

  lemma SizesAreSame(list: seq<Schema>, x: Schema, k: nat)
    requires IsAntichainList(list) && k < |list| && list[k].size == x.size
    ensures SizesAgree(list, x)
  {
    OneSize(list);
    assert list[0] in list && list[k] in list;
  }

  datatype SetState = SetState(isMinimal: bool, list: seq<Schema>)

  datatype Operation =
    | AddSchema(x: Schema)
    | RemoveSchema(x: Schema)
    | ComplementAll
    | ComplementWithin(universe: Schema)

  /** The set that goes on after an operation: the changed set, or the complement; an exception changes nothing. */
  ghost function After(m: SetState, op: Operation): SetState {
    match op
    case AddSchema(x) => if SizesAgree(m.list, x) then m.(list := Added(m.isMinimal, m.list, x)) else m
    case RemoveSchema(x) => m.(list := Removed(m.list, x.bits))
    case ComplementAll =>
      SetState(!m.isMinimal, if m.list == [] then [] else ComplementList(m.list, Full(m.list[0].size)))
    case ComplementWithin(universe) =>
      if Within(m.list, universe) then SetState(!m.isMinimal, ComplementList(m.list, universe)) else m
  }

  ghost function Run(m: SetState, ops: seq<Operation>): SetState {
    if ops == [] then m else After(Run(m, ops[..|ops| - 1]), ops[|ops| - 1])
  }

  lemma {:induction false} ComplementsAreAntichain(list: seq<Schema>, universe: Schema)
    requires IsAntichainList(list) && Within(list, universe)
    ensures IsAntichainList(ComplementList(list, universe))
  {
    if list != [] {
      var k := |list| - 1;
      assert list[..k + 1] == list;
      ComplementsAreAntichain(list[..k], universe);
      ComplementsAreAccepted(true, list, k, universe);
      AddedIsAntichain(true, ComplementList(list[..k], universe), ComplementOf(list[k], universe));
    }
  }

  lemma FullContainsAll(list: seq<Schema>)
    requires IsAntichainList(list) && list != []
    ensures Within(list, Full(list[0].size))
  {
    OneSize(list);
    forall s | s in list
      ensures s.size == list[0].size && s.bits <= Full(s.size).bits
    {
      assert list[0] in list;
    }
  }

  /** After any operations in any order, the set is a duplicate-free antichain of schemas of one size. */
  lemma {:induction false} RunKeepsAntichain(m: SetState, ops: seq<Operation>)
    requires IsAntichainList(m.list)
    ensures IsAntichainList(Run(m, ops).list)
  {
    if ops != [] {
      RunKeepsAntichain(m, ops[..|ops| - 1]);
      var now, op := Run(m, ops[..|ops| - 1]), ops[|ops| - 1];
      match op
      case AddSchema(x) =>
        if SizesAgree(now.list, x) {
          AddedIsAntichain(now.isMinimal, now.list, x);
        }
      case RemoveSchema(x) => RemovedIsAntichain(now.list, x.bits);
      case ComplementAll =>
        if now.list != [] {
          FullContainsAll(now.list);
          ComplementsAreAntichain(now.list, Full(now.list[0].size));
        }
      case ComplementWithin(universe) =>
        if Within(now.list, universe) {
          ComplementsAreAntichain(now.list, universe);
        }
    }
  }

  ghost function Adds(offered: seq<Schema>): seq<Operation> {
    seq(|offered|, i requires 0 <= i < |offered| => AddSchema(offered[i]))
  }

  /** The offered schemas that have the size of the first one; any other offer is refused. */
  ghost function Offered(offered: seq<Schema>): Family {
    set s | s in offered && s.size == offered[0].size :: s.bits
  }

  lemma {:induction false} DominatedByExtremal(isMinimal: bool, f: Family, e: Edge) returns (y: Edge)
    requires e in f
    ensures y in Extremal(isMinimal, f) && Dominates(isMinimal, y, e)
    decreases f
  {
    ExtremalMeansUndominated(isMinimal, f);
    if z :| z in f && z != e && Dominates(isMinimal, z, e) {
      var rest := f - {e};
      y := DominatedByExtremal(isMinimal, rest, z);
      ExtremalMeansUndominated(isMinimal, rest);
      assert Dominates(isMinimal, y, e) && !Dominates(isMinimal, e, y);
    } else {
      y := e;
    }
  }

  /** Schemas that were dropped earlier make no difference later. */
  lemma ExtremalOfExtremal(isMinimal: bool, f: Family, x: Edge)
    ensures Extremal(isMinimal, Extremal(isMinimal, f) + {x}) == Extremal(isMinimal, f + {x})
  {
    var g := Extremal(isMinimal, f);
    ExtremalMeansUndominated(isMinimal, f);
    ExtremalMeansUndominated(isMinimal, g + {x});
    ExtremalMeansUndominated(isMinimal, f + {x});
    forall e | e in f + {x}
      ensures e in g + {x} && !StrictlyDominated(isMinimal, e, g + {x}) <==> !StrictlyDominated(isMinimal, e, f + {x})
    {
      if y :| y in f && y != e && Dominates(isMinimal, y, e) {
        var z := DominatedByExtremal(isMinimal, f, y);
        assert z in g + {x} && z != e && Dominates(isMinimal, z, e);
      } else if e in f {
        assert e in g;
      }
    }
  }

  lemma OfferedSnoc(front: seq<Schema>, last: Schema)
    requires front != []
    ensures Offered(front + [last])
         == if last.size == front[0].size then Offered(front) + {last.bits} else Offered(front)
  {
    var all := front + [last];
    forall e | e in Offered(front)
      ensures e in Offered(all)
    {
      var s :| s in front && s.size == front[0].size && s.bits == e;
      assert s in all;
    }
    assert last in all;
  }

  /** The list holds the extremal ones of the schemas offered so far. */
  ghost predicate HoldsExtremal(isMinimal: bool, list: seq<Schema>, offered: seq<Schema>)
    requires offered != []
  {
    && FamilyOf(list) == Extremal(isMinimal, Offered(offered))
    && list != [] && forall s :: s in list ==> s.size == offered[0].size
  }

  lemma AddStaysExtremal(isMinimal: bool, list: seq<Schema>, front: seq<Schema>, last: Schema)
    requires front != [] && IsAntichainList(list) && HoldsExtremal(isMinimal, list, front)
    ensures HoldsExtremal(isMinimal, After(SetState(isMinimal, list), AddSchema(last)).list, front + [last])
  {
    OfferedSnoc(front, last);
    assert list[0] in list;
    if last.size == front[0].size {
      AddedIsExtremal(isMinimal, list, last);
      ExtremalOfExtremal(isMinimal, Offered(front), last.bits);
    }
  }

  lemma FirstAddIsExtremal(isMinimal: bool, first: Schema)
    ensures HoldsExtremal(isMinimal, After(SetState(isMinimal, []), AddSchema(first)).list, [first])
  {
    assert Offered([first]) == {first.bits};
    AddedIsExtremal(isMinimal, [], first);
    assert FamilyOf([]) + {first.bits} == {first.bits};
  }

  /** A set that was only added to holds exactly the minimal (maximal) ones of all schemas offered, in any order. */
  lemma {:induction false} AddsAreExtremal(isMinimal: bool, offered: seq<Schema>)
    requires offered != []
    ensures Run(SetState(isMinimal, []), Adds(offered)).isMinimal == isMinimal
    ensures HoldsExtremal(isMinimal, Run(SetState(isMinimal, []), Adds(offered)).list, offered)
  {
    var front, last := offered[..|offered| - 1], offered[|offered| - 1];
    assert Adds(offered)[..|front|] == Adds(front);
    assert offered == front + [last];
    if front == [] {
      FirstAddIsExtremal(isMinimal, last);
    } else {
      AddsAreExtremal(isMinimal, front);
      RunKeepsAntichain(SetState(isMinimal, []), Adds(front));
      AddStaysExtremal(isMinimal, Run(SetState(isMinimal, []), Adds(front)).list, front, last);
    }
  }

  /** What a schema of the list means for a new one: it stays out, it takes its place, or neither. */
  datatype Choice = Reject | Replace | Keep

  method Compare(isMinimal: bool, cur: Schema, newSchema: Schema) returns (r: Result<Choice>)
    ensures r.Err? <==> cur.bits != newSchema.bits && cur.size != newSchema.size
    ensures r.Ok? ==>
      r.value == (if Dominates(isMinimal, cur.bits, newSchema.bits) then Reject
                  else if Dominates(isMinimal, newSchema.bits, cur.bits) then Replace
                  else Keep)
  {
    if cur.bits == newSchema.bits {
      return Ok(Reject);
    }
    var smaller := IsSubsetOf(cur, newSchema);
    var larger := IsSupersetOf(cur, newSchema);
    if smaller.Err? {
      return Err;
    }
    if (if isMinimal then smaller.value else larger.value) {
      return Ok(Reject);
    }
    r := Ok(if (if isMinimal then larger.value else smaller.value) then Replace else Keep);
  }

  class MonotoneSchemaSet {
    const isMinimal: bool
    var schemas: seq<Schema>

    ghost predicate Valid()
      reads this
    {
      IsAntichainList(schemas)
    }

    ghost function Members(): Family
      reads this
    {
      FamilyOf(schemas)
    }

    ghost function State(): SetState
      reads this
    {
      SetState(isMinimal, schemas)
    }

    constructor (isMinimal: bool)
      ensures Valid() && schemas == [] && this.isMinimal == isMinimal
    {
      this.isMinimal := isMinimal;
      schemas := [];
    }

    method Add(newSchema: Schema) returns (r: Result<bool>)
      requires Valid()
      modifies this
      ensures Valid()
      ensures SizesAgree(old(schemas), newSchema) ==>
        && r == Ok(!Rejects(isMinimal, old(schemas), newSchema))
        && schemas == Added(isMinimal, old(schemas), newSchema)
      ensures !SizesAgree(old(schemas), newSchema) ==>
        && r == (if old(schemas)[0].bits == newSchema.bits then Ok(false) else Err)
        && schemas == old(schemas)
      ensures State() == After(old(State()), AddSchema(newSchema))
    {
      ghost var before, x := schemas, newSchema.bits;
      ghost var seen := 0;
      var i := 0;
      ScanStart(isMinimal, before, x);
      while i < |schemas|
        invariant 0 <= i && Scanned(isMinimal, before, x, seen, schemas, i)
        invariant seen > 0 ==> SizesAgree(before, newSchema)
        decreases |before| - seen
      {
        ScanStep(isMinimal, before, x, seen, schemas, i);
        var choice := Compare(isMinimal, schemas[i], newSchema);
        if choice.Err? {
          SizesDiffer(before, newSchema, seen);
          return Err;
        }
        if choice.value == Reject {
          RejectionComesFirst(isMinimal, before, x, seen);
          return Ok(false);
        }
        SizesAreSame(before, newSchema, seen);
        if choice.value == Replace {
          schemas := schemas[..i] + schemas[i + 1..];
        } else {
          i := i + 1;
        }
        seen := seen + 1;
      }
      ScanEnd(isMinimal, before, newSchema, seen, schemas, i);
      schemas := schemas + [newSchema];
      AddedIsAntichain(isMinimal, before, newSchema);
      r := Ok(true);
    }

    method Remove(removed: Schema) returns (r: bool)
      requires Valid()
      modifies this
      ensures Valid() && Members() == old(Members()) - {removed.bits}
      ensures r <==> removed.bits in old(Members())
      ensures State() == After(old(State()), RemoveSchema(removed))
    {
      RemovedIsAntichain(schemas, removed.bits);
      for i := 0 to |schemas|
        invariant schemas == old(schemas)
        invariant forall j :: 0 <= j < i ==> schemas[j].bits != removed.bits
      {
        if schemas[i].bits == removed.bits {
          FirstIsTheOnlyOne(schemas, i);
          assert schemas[i] in schemas;
          schemas := schemas[..i] + schemas[i + 1..];
          return true;
        }
      }
      NothingRemoved(schemas, removed.bits);
      r := false;
    }

    method ComplementIn(universe: Schema) returns (r: Result<MonotoneSchemaSet>)
      requires Valid()
      ensures r.Ok? <==> Within(schemas, universe)
      ensures r.Ok? ==>
        && fresh(r.value) && r.value.Valid() && r.value.isMinimal == !isMinimal
        && r.value.schemas == ComplementList(schemas, universe)
        && r.value.State() == After(State(), ComplementWithin(universe))
    {
      var result := new MonotoneSchemaSet(!isMinimal);
      for i := 0 to |schemas|
        invariant fresh(result) && result.Valid() && result.isMinimal == !isMinimal
        invariant Within(schemas[..i], universe)
        invariant result.schemas == ComplementList(schemas[..i], universe)
      {
        var c := Schemas.ComplementIn(schemas[i], universe);
        if c.Err? {
          return Err;
        }
        assert Within(schemas[..i + 1], universe);
        ComplementsAreAccepted(!isMinimal, schemas, i, universe);
        var added := result.Add(c.value);
      }
      assert schemas[..|schemas|] == schemas;
      r := Ok(result);
    }

    method Complement() returns (r: MonotoneSchemaSet)
      requires Valid()
      ensures fresh(r) && r.Valid() && r.isMinimal == !isMinimal
      ensures schemas == [] ==> r.schemas == []
      ensures schemas != [] ==> r.schemas == ComplementList(schemas, Full(schemas[0].size))
      ensures r.State() == After(State(), ComplementAll)
    {
      r := new MonotoneSchemaSet(!isMinimal);
      if schemas == [] {
        return;
      }
      ghost var universe := Full(schemas[0].size);
      OneSize(schemas);
      for i := 0 to |schemas|
        invariant fresh(r) && r.Valid() && r.isMinimal == !isMinimal
        invariant r.schemas == ComplementList(schemas[..i], universe)
      {
        var c := Schemas.Complement(schemas[i]);
        assert Within(schemas[..i + 1], universe);
        ComplementsAreAccepted(!isMinimal, schemas, i, universe);
        var added := r.Add(c);
      }
      assert schemas[..|schemas|] == schemas;
    }
  }
}
