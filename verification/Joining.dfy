/** Which alternatives can be joined: the one order they have, and a group that has none. */
module Joining {
  import opened Sets
  import opened Languages
  import opened Expressions
  import opened Alternatives
  import opened NameKeys

  /** Nodes with the same alternatives are one node, in whatever order they were put together. */
  lemma SameAlternativesSameNode(s: Store, table: seq<seq<nat>>, hash: Token -> nat, e: nat, f: nat)
    requires Intact(s, table, hash) && Unique(s) && e < |s| && f < |s|
    requires AltSet(s, e) == AltSet(s, f) && Apart(s, AltSet(s, e))
    ensures e == f
  {
    AltsInOrder(s, table, hash, e);
    AltsInOrder(s, table, hash, f);
    OneOrder(s, Alts(s, e), Alts(s, f));
    SameListSameNode(s, table, hash, e, f);
  }

  lemma {:induction false} SameListSameNode(s: Store, table: seq<seq<nat>>, hash: Token -> nat, e: nat, f: nat)
    requires Intact(s, table, hash) && Unique(s) && e < |s| && f < |s| && Alts(s, e) == Alts(s, f)
    ensures e == f
    decreases e
  {
    AltsOf(s, e);
    AltsOf(s, f);
    OnlyStatics(s, e);
    OnlyStatics(s, f);
    if s[e].node.Or? {
      AltsOfRight(s, table, hash, e);
    }
    if s[f].node.Or? {
      AltsOfRight(s, table, hash, f);
    }
    if s[e].node.Or? {
      assert Alts(s, e)[1..] == Alts(s, s[e].node.right) && Alts(s, f)[1..] == Alts(s, s[f].node.right);
      SameListSameNode(s, table, hash, s[e].node.right, s[f].node.right);
    }
  }

  lemma {:induction false} LeastExists(s: Store, alts: set<nat>) returns (x: nat)
    requires alts != {} && Apart(s, alts) && forall e :: e in alts ==> e < |s|
    ensures x in alts && forall e :: e in alts && e != x ==> s[x].key < s[e].key
    decreases |alts|
  {
    x :| x in alts;
    if alts != {x} {
      var y := LeastExists(s, alts - {x});
      if s[y].key < s[x].key {
        x := y;
      }
    }
  }

  lemma {:induction false} NoRepeats(s: Store, c: seq<nat>)
    requires Stored(s, c) && InOrder(s, c)
    ensures |Elems(c)| == |c|
  {
    if c != [] {
      TailElems(s, c);
      NoRepeats(s, c[1..]);
      assert Elems(c) == Elems(c[1..]) + {c[0]};
    }
  }

  /** Up to three alternatives can always be put in order. */
  lemma {:induction false} FewAreOrderable(s: Store, alts: set<nat>)
    requires |alts| <= 3 && Apart(s, alts) && forall e :: e in alts ==> e < |s|
    ensures Orderable(s, alts)
    decreases |alts|
  {
    if alts == {} {
      NothingIsOrderable(s);
    } else {
      var x := LeastExists(s, alts);
      FewAreOrderable(s, alts - {x});
      OneMoreIsOrderable(s, x, alts - {x});
      assert alts - {x} + {x} == alts;
    }
  }

  lemma NothingIsOrderable(s: Store)
    ensures Orderable(s, {})
  {
    NoElems([]);
    assert Stored(s, []) && InOrder(s, []);
  }

  lemma OneMoreIsOrderable(s: Store, x: nat, alts: set<nat>)
    requires Orderable(s, alts) && |alts| <= 2 && x < |s|
    requires forall e :: e in alts ==> e < |s| && s[x].key < s[e].key
    ensures Orderable(s, alts + {x})
  {
    var c :| Stored(s, c) && InOrder(s, c) && Elems(c) == alts;
    NoRepeats(s, c);
    LeastInFront(s, x, c);
    assert Stored(s, [x] + c) && InOrder(s, [x] + c) && Elems([x] + c) == alts + {x};
  }

  lemma LeastInFront(s: Store, x: nat, c: seq<nat>)
    requires Stored(s, c) && InOrder(s, c) && |c| <= 2 && x < |s|
    requires forall e :: e in Elems(c) ==> e < |s| && s[x].key < s[e].key
    ensures Stored(s, [x] + c) && InOrder(s, [x] + c) && Elems([x] + c) == Elems(c) + {x}
  {
    assert forall e :: e in [x] + c <==> e == x || e in c;
    if c != [] {
      assert c[0] in Elems(c) && c[|c| - 1] in Elems(c);
      InFront(s, x, c);
    }
  }

  /** So nodes with up to three alternatives together can always be joined. */
  lemma {:induction false} FewCanBeJoined(s: Store, l: nat, r: nat)
    requires Acyclic(s) && l < |s| && r < |s| && |Union(s, l, r)| <= 3 && Apart(s, Union(s, l, r))
    ensures Joinable(s, l, r)
    decreases l
  {
    UnionIsStored(s, l, r);
    FewAreOrderable(s, Union(s, l, r));
    AltsOf(s, l);
    if s[l].node.Or? && s[r].node.Or? {
      SubsetIsNoLarger(Union(s, s[l].node.right, r), Union(s, l, r));
      FewCanBeJoined(s, s[l].node.right, r);
    }
  }

  lemma ThreeInOrder(s: Store, b: nat, c: nat, d: nat)
    requires b < |s| && c < |s| && d < |s| && s[b].key < s[c].key < s[d].key
    ensures Stored(s, [b, c, d]) && InOrder(s, [b, c, d])
    ensures [b, c, d][1..] == [c, d] && Stored(s, [c, d]) && GroupKey(s, [c, d]) == Short((s[c].key + s[d].key) * 7)
  {
    TwoInOrder(s, c, d);
    assert [b] + [c, d] == [b, c, d];
    assert [c, d][1..] == [d];
    InFront(s, b, [c, d]);
  }

  lemma TwoInOrder(s: Store, c: nat, d: nat)
    requires c < |s| && d < |s| && s[c].key < s[d].key
    ensures Stored(s, [c, d]) && InOrder(s, [c, d]) && GroupKey(s, [c, d]) == Short((s[c].key + s[d].key) * 7)
  {
    assert [c, d][1..] == [d];
  }

  lemma FourOrderable(s: Store, a: nat, b: nat, c: nat, d: nat)
    requires a < |s| && b < |s| && c < |s| && d < |s| && s[a].key < s[b].key < s[c].key < s[d].key
    requires s[a].key <= Short((s[c].key + s[d].key) * 7)
    ensures Orderable(s, {a, b, c, d})
  {
    var q := [b, c, d];
    ThreeInOrder(s, b, c, d);
    InFront(s, a, q);
    assert Stored(s, [a] + q) && InOrder(s, [a] + q) && Elems([a] + q) == {a, b, c, d};
  }

  /** With a fourth, it depends on the key of the group of the last two. */
  lemma FourAlternatives(s: Store, a: nat, b: nat, c: nat, d: nat)
    requires a < |s| && b < |s| && c < |s| && d < |s| && s[a].key < s[b].key < s[c].key < s[d].key
    ensures Orderable(s, {a, b, c, d}) <==> s[a].key <= Short((s[c].key + s[d].key) * 7)
  {
    if s[a].key <= Short((s[c].key + s[d].key) * 7) {
      FourOrderable(s, a, b, c, d);
    }
    if Orderable(s, {a, b, c, d}) {
      var q, w :| q == [b, c, d] && Stored(s, w) && InOrder(s, w) && Elems(w) == {a, b, c, d};
      ThreeInOrder(s, b, c, d);
      assert a in Elems(w);
      LeastOfAll(s, w, a);
      assert w[0] in Elems(w);
      TailElems(s, w);
      OneOrder(s, w[1..], q);
      assert w[2..] == q[1..];
    }
  }

  lemma FourCannotBeJoined(s: Store, l: nat, r: nat, a: nat, b: nat, c: nat, d: nat)
    requires Acyclic(s) && l < |s| && r < |s| && Union(s, l, r) == {a, b, c, d}
    requires a < |s| && b < |s| && c < |s| && d < |s| && s[a].key < s[b].key < s[c].key < s[d].key
    requires s[a].key > Short((s[c].key + s[d].key) * 7)
    ensures Apart(s, Union(s, l, r)) && !Joinable(s, l, r)
  {
    FourAlternatives(s, a, b, c, d);
  }

  /** a | (d | (e | f)): the group of the last two has the key 5103. */
  ghost const LOOPING: Store :=
    [Entry(Forbid, 0, false), Entry(Empty, 0, true), Entry(Atom("a"), 26322, false), Entry(Atom("d"), 29539, false),
     Entry(Atom("e"), 30537, false), Entry(Atom("f"), 35728, false), Entry(Or(4, 5), 5103, false),
     Entry(Or(3, 6), 45886, false)]

  lemma LoopingIsCanonical(i: nat)
    requires 2 <= i < 8
    ensures Canonical(LOOPING[..i], LOOPING[i].node, LOOPING[i].nillable) && PartsBelow(LOOPING[i].node, i)
  {
  }

  ghost predicate FourKeys(hash: Token -> nat) {
    hash("a") == 26322 && hash("d") == 29539 && hash("e") == 30537 && hash("f") == 35728
  }

  lemma LoopingIsHashed(hash: Token -> nat, i: nat)
    requires 2 <= i < 8 && FourKeys(hash)
    ensures HashedAt(LOOPING, [[2, 3, 4, 5, 6, 7]], hash, i)
  {
    LoopingIsCanonical(i);
    assert [2, 3, 4, 5, 6, 7][i - 2] == i;
  }

  lemma LoopingIsStored(hash: Token -> nat)
    requires FourKeys(hash)
    ensures Intact(LOOPING, [[2, 3, 4, 5, 6, 7]], hash) && Unique(LOOPING)
  {
    LoopingIsWellFormed();
    forall i | 2 <= i < 8
      ensures HashedAt(LOOPING, [[2, 3, 4, 5, 6, 7]], hash, i)
    {
      LoopingIsHashed(hash, i);
    }
    WellFormedIsAcyclic(LOOPING);
  }

  lemma LoopingIsWellFormed()
    ensures WellFormed(LOOPING)
  {
    forall i | 2 <= i < 8
      ensures Canonical(LOOPING[..i], LOOPING[i].node, LOOPING[i].nillable)
    {
      LoopingIsCanonical(i);
    }
  }

  lemma LoopingUnion()
    requires Acyclic(LOOPING)
    ensures Union(LOOPING, 2, 7) == {2, 3, 4, 5}
  {
    AltsOf(LOOPING, 2);
    AltsOf(LOOPING, 7);
    AltsOf(LOOPING, 6);
    AltsOf(LOOPING, 5);
  }

  lemma NamesHaveTheseKeys()
    ensures FourKeys(NameKey)
  {
    KeyOfA();
    KeyOfD();
    KeyOfE();
    KeyOfF();
  }

  lemma LoopingHasNoOrder()
    requires Acyclic(LOOPING)
    ensures Apart(LOOPING, Union(LOOPING, 2, 7)) && !Joinable(LOOPING, 2, 7)
  {
    LoopingUnion();
    assert Short((30537 + 35728) * 7) == 5103;
    FourCannotBeJoined(LOOPING, 2, 7, 2, 3, 4, 5);
  }

  /** So with the program's hash the constructor does not end on a | (d | (e | f)), whatever the fuel. */
  lemma NeverEnds()
    ensures Intact(LOOPING, [[2, 3, 4, 5, 6, 7]], NameKey) && Unique(LOOPING)
    ensures Apart(LOOPING, Union(LOOPING, 2, 7)) && !Joinable(LOOPING, 2, 7)
  {
    NamesHaveTheseKeys();
    LoopingIsStored(NameKey);
    LoopingHasNoOrder();
  }
}
