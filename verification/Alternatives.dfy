/** The alternatives under an OR node, and when they can be put in order. */
module Alternatives {
  import opened Sets
  import opened Results
  import opened Languages
  import opened Expressions

  /** The alternatives of a node from left to right; the forbidden node has none. */
  ghost function Alts(s: Store, e: nat): seq<nat>
    requires Acyclic(s) && e < |s|
    decreases e
  {
    assert PartsBelow(s[e].node, e);
    match s[e].node
    case Forbid => []
    case Or(l, r) => [l] + Alts(s, r)
    case _ => [e]
  }

  ghost function Elems(c: seq<nat>): set<nat> {
    set e | e in c
  }

  ghost function AltSet(s: Store, e: nat): set<nat>
    requires Acyclic(s) && e < |s|
  {
    Elems(Alts(s, e))
  }

  ghost predicate Stored(s: Store, c: seq<nat>) {
    forall i :: 0 <= i < |c| ==> c[i] < |s|
  }

  /** The key of the node that groups these alternatives to the right. */
  ghost function GroupKey(s: Store, c: seq<nat>): nat
    requires Stored(s, c) && c != []
  {
    if |c| == 1 then s[c[0]].key else Short((s[c[0]].key + GroupKey(s, c[1..])) * 7)
  }

  /** Rising keys, and no key above that of the group two places further on. */
  ghost predicate InOrder(s: Store, c: seq<nat>)
    requires Stored(s, c)
  {
    |c| <= 1 || (
      && InOrder(s, c[1..]) && s[c[0]].key < s[c[1]].key
      && (|c| >= 3 ==> s[c[0]].key <= GroupKey(s, c[2..])))
  }

  /** These alternatives can be put in order. */
  ghost predicate Orderable(s: Store, alts: set<nat>) {
    exists c :: Stored(s, c) && InOrder(s, c) && Elems(c) == alts
  }

  /** Different alternatives have different keys. */
  ghost predicate Apart(s: Store, alts: set<nat>) {
    forall x, y :: x in alts && y in alts && x < |s| && y < |s| && s[x].key == s[y].key ==> x == y
  }

  ghost function Union(s: Store, l: nat, r: nat): set<nat>
    requires Acyclic(s) && l < |s| && r < |s|
  {
    AltSet(s, l) + AltSet(s, r)
  }

  /**
   * All alternatives can be put in order, and also those met on the way when two groups are joined: all of
   * the right group with more and more of the left one, from its end.
   */
  ghost predicate Joinable(s: Store, l: nat, r: nat)
    requires Acyclic(s) && l < |s| && r < |s|
    decreases l
  {
    assert PartsBelow(s[l].node, l);
    && Orderable(s, Union(s, l, r))
    && (s[l].node.Or? && s[r].node.Or? ==> Joinable(s, s[l].node.right, r))
  }

  ghost function Depth(s: Store, e: nat): nat
    requires Acyclic(s) && e < |s|
    decreases e
  {
    assert PartsBelow(s[e].node, e);
    if s[e].node.Or? then 1 + Depth(s, s[e].node.right) else 0
  }

  /** Enough fuel for joining two nodes that can be joined. */
  ghost function Bound(s: Store, l: nat, r: nat): nat
    requires Acyclic(s) && l < |s| && r < |s|
  {
    |Union(s, l, r)| + if s[r].node.Or? then Depth(s, l) else 0
  }

  // Lists in order

  lemma {:induction false} HeadIsLeast(s: Store, c: seq<nat>)
    requires Stored(s, c) && InOrder(s, c) && c != []
    ensures forall e :: e in c[1..] ==> s[c[0]].key < s[e].key
  {
    if |c| > 1 {
      HeadIsLeast(s, c[1..]);
    }
  }

  /** Alternatives can be put in order in one way only. */
  lemma {:induction false} OneOrder(s: Store, c: seq<nat>, d: seq<nat>)
    requires Stored(s, c) && Stored(s, d) && InOrder(s, c) && InOrder(s, d) && Elems(c) == Elems(d)
    ensures c == d
  {
    NoElems(c);
    NoElems(d);
    if c != [] {
      SameHead(s, c, d);
      TailElems(s, c);
      TailElems(s, d);
      OneOrder(s, c[1..], d[1..]);
      assert c == [c[0]] + c[1..] && d == [d[0]] + d[1..];
    }
  }

  lemma NoElems(c: seq<nat>)
    ensures c == [] <==> Elems(c) == {}
  {
    if c != [] {
      assert c[0] in Elems(c);
    }
  }

  /** The head has the least key, and no other element has it. */
  lemma LeastOfAll(s: Store, c: seq<nat>, x: nat)
    requires Stored(s, c) && InOrder(s, c) && x in c
    ensures c[0] < |s| && x < |s| && s[c[0]].key <= s[x].key && (s[c[0]].key == s[x].key ==> x == c[0])
  {
    HeadIsLeast(s, c);
    assert x == c[0] || x in c[1..];
  }

  lemma SameHead(s: Store, c: seq<nat>, d: seq<nat>)
    requires Stored(s, c) && Stored(s, d) && InOrder(s, c) && InOrder(s, d) && Elems(c) == Elems(d)
    requires c != [] && d != []
    ensures c[0] == d[0]
  {
    assert c[0] in Elems(d) && d[0] in Elems(c);
    LeastOfAll(s, c, d[0]);
    LeastOfAll(s, d, c[0]);
  }

  lemma TailElems(s: Store, c: seq<nat>)
    requires Stored(s, c) && InOrder(s, c) && c != []
    ensures c[0] !in c[1..] && Elems(c[1..]) == Elems(c) - {c[0]} && InOrder(s, c[1..])
  {
    HeadIsLeast(s, c);
  }

  lemma {:induction false} OrderIsApart(s: Store, c: seq<nat>)
    requires Stored(s, c) && InOrder(s, c)
    ensures Apart(s, Elems(c))
  {
    if c != [] {
      HeadIsLeast(s, c);
      TailElems(s, c);
      OrderIsApart(s, c[1..]);
    }
  }

  // Stored nodes

  /** What the constructors keep of a store. */
  ghost predicate Intact(s: Store, table: seq<seq<nat>>, hash: Token -> nat) {
    WellFormed(s) && Acyclic(s) && Hashed(s, table, hash)
  }

  lemma OrEntry(s: Store, table: seq<seq<nat>>, hash: Token -> nat, e: nat)
    requires Intact(s, table, hash) && e < |s| && s[e].node.Or?
    ensures var l, r := s[e].node.left, s[e].node.right;
            && l < e && r < e && Plain(s, l) && !s[r].node.Forbid? && Settled(s, l, r)
            && s[e].key == Short((s[l].key + s[r].key) * 7)
  {
    OrIsSettled(s, e);
    OnlyStatics(s, e);
    OnlyStatics(s, s[e].node.left);
    OnlyStatics(s, s[e].node.right);
    assert HashedAt(s, table, hash, e);
  }

  ghost predicate Plain(s: Store, e: nat)
    requires e < |s|
  {
    !s[e].node.Or? && !s[e].node.Forbid?
  }

  /** The head of the alternatives is the node itself, or its left part. */
  lemma AltsOf(s: Store, e: nat)
    requires Acyclic(s) && e < |s|
    ensures Plain(s, e) ==> Alts(s, e) == [e]
    ensures s[e].node.Or? ==>
      var l, r := s[e].node.left, s[e].node.right;
      l < e && r < e && Alts(s, e) == [l] + Alts(s, r) && AltSet(s, e) == {l} + AltSet(s, r)
  {
    assert PartsBelow(s[e].node, e);
  }

  lemma {:induction false} AltsAreStored(s: Store, e: nat)
    requires Acyclic(s) && e < |s|
    ensures Stored(s, Alts(s, e)) && (!s[e].node.Forbid? ==> Alts(s, e) != [])
    decreases e
  {
    AltsOf(s, e);
    if s[e].node.Or? {
      AltsAreStored(s, s[e].node.right);
    }
  }

  /** A stored node has the key of the group of its alternatives. */
  lemma {:induction false} KeyOfGroup(s: Store, table: seq<seq<nat>>, hash: Token -> nat, e: nat)
    requires Intact(s, table, hash) && e < |s| && !s[e].node.Forbid?
    ensures Stored(s, Alts(s, e)) && Alts(s, e) != [] && GroupKey(s, Alts(s, e)) == s[e].key
    decreases e
  {
    AltsAreStored(s, e);
    AltsOf(s, e);
    if s[e].node.Or? {
      OrEntry(s, table, hash, e);
      KeyOfGroup(s, table, hash, s[e].node.right);
      assert Alts(s, e)[1..] == Alts(s, s[e].node.right);
    }
  }

  lemma SettledRises(s: Store, l: nat, r: nat)
    requires Acyclic(s) && l < |s| && r < |s| && !s[r].node.Forbid? && Settled(s, l, r)
    requires Plain(s, l) && Apart(s, {l} + AltSet(s, r))
    ensures Alts(s, r) != [] && Alts(s, r)[0] < |s| && s[l].key < s[Alts(s, r)[0]].key
  {
    AltsOf(s, r);
    AltsAreStored(s, r);
    assert Alts(s, r)[0] in AltSet(s, r);
  }

  lemma SettledGroup(s: Store, table: seq<seq<nat>>, hash: Token -> nat, l: nat, r: nat)
    requires Intact(s, table, hash) && l < |s| && r < |s| && Settled(s, l, r) && |Alts(s, r)| >= 2
    ensures Stored(s, Alts(s, r)[1..]) && s[l].key <= GroupKey(s, Alts(s, r)[1..])
  {
    AltsOf(s, r);
    OrEntry(s, table, hash, r);
    KeyOfGroup(s, table, hash, s[r].node.right);
    assert Alts(s, r)[1..] == Alts(s, s[r].node.right);
  }

  /** One more alternative in front of a group in order. */
  lemma FrontInOrder(s: Store, table: seq<seq<nat>>, hash: Token -> nat, l: nat, r: nat)
    requires Intact(s, table, hash) && l < |s| && r < |s| && Plain(s, l) && !s[r].node.Forbid? && Settled(s, l, r)
    requires Apart(s, {l} + AltSet(s, r))
    requires Stored(s, Alts(s, r)) && InOrder(s, Alts(s, r))
    ensures Stored(s, [l] + Alts(s, r)) && InOrder(s, [l] + Alts(s, r))
  {
    var c := Alts(s, r);
    SettledRises(s, l, r);
    if |c| >= 2 {
      SettledGroup(s, table, hash, l, r);
    }
    InFront(s, l, c);
  }

  lemma InFront(s: Store, l: nat, c: seq<nat>)
    requires Stored(s, c) && InOrder(s, c) && l < |s| && c != [] && s[l].key < s[c[0]].key
    requires |c| >= 2 ==> s[l].key <= GroupKey(s, c[1..])
    ensures Stored(s, [l] + c) && InOrder(s, [l] + c)
  {
    var d := [l] + c;
    assert d[1..] == c && d[1] == c[0];
    if |c| >= 2 {
      assert d[2..] == c[1..];
    }
  }

  /** A stored node has its alternatives in order. */
  lemma {:induction false} AltsInOrder(s: Store, table: seq<seq<nat>>, hash: Token -> nat, e: nat)
    requires Intact(s, table, hash) && e < |s| && Apart(s, AltSet(s, e))
    ensures Stored(s, Alts(s, e)) && InOrder(s, Alts(s, e)) && Orderable(s, AltSet(s, e))
    decreases e
  {
    AltsOf(s, e);
    if s[e].node.Or? {
      OrEntry(s, table, hash, e);
      AltsInOrder(s, table, hash, s[e].node.right);
      FrontInOrder(s, table, hash, s[e].node.left, s[e].node.right);
    }
  }

  // Growth of the store

  lemma {:induction false} AltsStay(s: Store, t: Store, e: nat)
    requires Acyclic(s) && Acyclic(t) && s <= t && e < |s|
    ensures Alts(s, e) == Alts(t, e) && AltSet(s, e) == AltSet(t, e)
    decreases e
  {
    AltsOf(s, e);
    AltsOf(t, e);
    if s[e].node.Or? {
      AltsStay(s, t, s[e].node.right);
    }
  }

  lemma {:induction false} OrderStays(s: Store, t: Store, c: seq<nat>)
    requires s <= t && Stored(s, c)
    ensures InOrder(s, c) <==> InOrder(t, c)
  {
    if |c| > 1 {
      OrderStays(s, t, c[1..]);
      if |c| >= 3 {
        GroupKeyStays(s, t, c[2..]);
      }
    }
  }

  lemma {:induction false} GroupKeyStays(s: Store, t: Store, c: seq<nat>)
    requires s <= t && Stored(s, c) && c != []
    ensures GroupKey(s, c) == GroupKey(t, c)
  {
    if |c| > 1 {
      GroupKeyStays(s, t, c[1..]);
    }
  }

  lemma OrderableStays(s: Store, t: Store, alts: set<nat>)
    requires s <= t && forall e :: e in alts ==> e < |s|
    ensures Orderable(s, alts) <==> Orderable(t, alts)
    ensures Apart(s, alts) <==> Apart(t, alts)
  {
    if c :| Stored(s, c) && InOrder(s, c) && Elems(c) == alts {
      OrderStays(s, t, c);
      assert Stored(t, c);
    }
    if c :| Stored(t, c) && InOrder(t, c) && Elems(c) == alts {
      forall i | 0 <= i < |c|
        ensures c[i] < |s|
      {
        assert c[i] in Elems(c);
      }
      OrderStays(s, t, c);
    }
  }

  lemma AltSetIsStored(s: Store, e: nat)
    requires Acyclic(s) && e < |s|
    ensures forall x :: x in AltSet(s, e) ==> x < |s|
  {
    AltsAreStored(s, e);
  }

  // Joining two nodes

  /** Nothing has to be reordered. */
  ghost predicate InPlace(s: Store, l: nat, r: nat)
    requires l < |s| && r < |s|
  {
    Plain(s, l) && !s[r].node.Forbid? && Settled(s, l, r)
  }

  /**
   * The result of joining l and r has all their alternatives. It can only be reached when they can be put in
   * order, and it is reached when they can and there is fuel enough, or when nothing is to be done: when one
   * of the two is forbidden, or when they are in order as they are.
   */
  ghost predicate Joins(s: Store, t: Store, l: nat, r: nat, fuel: nat, res: Option<nat>) {
    && Acyclic(s) && Acyclic(t) && s <= t && l < |s| && r < |s|
    && (res.Some? ==> res.value < |t| && AltSet(t, res.value) == Union(s, l, r))
    && (res.Some? && Apart(s, Union(s, l, r)) ==> Joinable(s, l, r))
    && (Joinable(s, l, r) && fuel >= Bound(s, l, r) ==> res.Some?)
    && (s[l].node.Forbid? || s[r].node.Forbid? ==> res.Some?)
    && (InPlace(s, l, r) ==> res.Some? && res.value < |t| && t[res.value].node == Or(l, r))
  }

  /** It has their meaning, and a node that is stored already is found. */
  ghost predicate Means(s: Store, t: Store, l: nat, r: nat, res: Option<nat>) {
    && Acyclic(s) && Acyclic(t) && l < |s| && r < |s|
    && (res.Some? ==>
         && res.value < |t| && L(t, res.value) == L(s, l) + L(s, r)
         && (res.value == FORBIDDEN <==> l == FORBIDDEN && r == FORBIDDEN))
    && forall e :: 0 <= e < |s| && s[e].node == Or(l, r) ==> res == Some(e) && t == s
  }

  /** What the constructor of alternatives does. */
  ghost predicate OrDone(s: Store, t: Store, l: nat, r: nat, fuel: nat, res: Option<nat>) {
    Joins(s, t, l, r, fuel, res) && Means(s, t, l, r, res)
  }

  /** A stored result shows that its alternatives could be put in order. */
  lemma ResultIsOrdered(s: Store, t: Store, table: seq<seq<nat>>, hash: Token -> nat, e: nat, alts: set<nat>)
    requires s <= t && Intact(t, table, hash) && e < |t| && AltSet(t, e) == alts && Apart(s, alts)
    requires forall x :: x in alts ==> x < |s|
    ensures Orderable(s, alts)
  {
    OrderableStays(s, t, alts);
    AltsInOrder(t, table, hash, e);
  }

  lemma UnionIsStored(s: Store, l: nat, r: nat)
    requires Acyclic(s) && l < |s| && r < |s|
    ensures forall x :: x in Union(s, l, r) ==> x < |s|
  {
    AltSetIsStored(s, l);
    AltSetIsStored(s, r);
  }

  /** A group joined to one that has all its alternatives already. */
  lemma {:induction false} NothingNewJoins(s: Store, table: seq<seq<nat>>, hash: Token -> nat, l: nat, r: nat)
    requires Intact(s, table, hash) && l < |s| && r < |s|
    requires AltSet(s, l) <= AltSet(s, r) && Apart(s, AltSet(s, r))
    ensures Joinable(s, l, r)
    decreases l
  {
    assert Union(s, l, r) == AltSet(s, r);
    AltsInOrder(s, table, hash, r);
    AltsOf(s, l);
    if s[l].node.Or? && s[r].node.Or? {
      NothingNewJoins(s, table, hash, s[l].node.right, r);
    }
  }

  /** The constructor returns one of the parts as it is. */
  lemma EarlyExit(s: Store, table: seq<seq<nat>>, hash: Token -> nat, l: nat, r: nat, fuel: nat, e: nat)
    requires Intact(s, table, hash) && l < |s| && r < |s|
    requires (e == r && AltSet(s, l) <= AltSet(s, r)) || (e == l && AltSet(s, r) <= AltSet(s, l) && !s[r].node.Or?)
    requires !InPlace(s, l, r)
    ensures Joins(s, s, l, r, fuel, Some(e))
  {
    assert Union(s, l, r) == AltSet(s, e);
    if Apart(s, Union(s, l, r)) {
      if e == r {
        NothingNewJoins(s, table, hash, l, r);
      } else {
        AltsInOrder(s, table, hash, l);
      }
    }
  }

  /** Without an OR on the left the parts are interchangeable. */
  lemma SwappedJoins(s: Store, t: Store, l: nat, r: nat, fuel: nat, res: Option<nat>)
    requires Joins(s, t, r, l, fuel, res) && !s[r].node.Or?
    requires s[l].node.Or? || s[l].key > s[r].key
    ensures Joins(s, t, l, r, fuel, res)
  {
    assert Union(s, l, r) == Union(s, r, l);
  }

  /** A new node in front. */
  lemma NewNodeJoins(s: Store, t: Store, table: seq<seq<nat>>, hash: Token -> nat, l: nat, r: nat, fuel: nat, e: nat)
    requires Acyclic(s) && s <= t && Intact(t, table, hash) && l < |s| && r < |s| && Plain(s, l)
    requires e < |t| && t[e].node == Or(l, r)
    ensures Joins(s, t, l, r, fuel, Some(e))
  {
    AltsOf(s, l);
    AltsOf(t, e);
    AltsStay(s, t, r);
    UnionIsStored(s, l, r);
    assert AltSet(s, l) == {l};
    if Apart(s, Union(s, l, r)) {
      ResultIsOrdered(s, t, table, hash, e, Union(s, l, r));
    }
  }

  /** Two steps: b and c first, with the result mid in the store u, then a and mid. */
  ghost predicate Regrouped(s: Store, u: Store, t: Store, a: nat, b: nat, c: nat, fuel: nat, mid: Option<nat>,
                            res: Option<nat>) {
    && Acyclic(s) && Acyclic(u) && Acyclic(t) && s <= u <= t && a < |s| && b < |s| && c < |s|
    && (fuel == 0 ==> res == None)
    && (fuel > 0 ==>
         && OrDone(s, u, b, c, fuel - 1, mid)
         && (mid == None ==> res == None)
         && (mid.Some? ==> OrDone(u, t, a, mid.value, fuel - 1, res)))
  }

  /** The result of both steps has all alternatives. */
  lemma RegroupedUnion(s: Store, u: Store, t: Store, a: nat, b: nat, c: nat, fuel: nat, mid: Option<nat>,
                       res: Option<nat>)
    requires Regrouped(s, u, t, a, b, c, fuel, mid, res) && res.Some?
    ensures fuel > 0 && mid.Some? && mid.value < |u|
    ensures res.value < |t| && AltSet(t, res.value) == AltSet(s, a) + Union(s, b, c)
  {
    AltsStay(s, u, a);
  }

  /** Two groups joined: the rest of the left one first. */
  lemma RegroupLeft(s: Store, u: Store, t: Store, table: seq<seq<nat>>, hash: Token -> nat, l: nat, r: nat, fuel: nat,
                    mid: Option<nat>, res: Option<nat>, before: seq<seq<nat>>)
    requires Intact(s, before, hash) && Intact(t, table, hash)
    requires l < |s| && r < |s| && s[l].node.Or? && s[r].node.Or?
    requires Regrouped(s, u, t, s[l].node.left, s[l].node.right, r, fuel, mid, res)
    ensures Joins(s, t, l, r, fuel, res)
  {
    OrEntry(s, before, hash, l);
    LeftUnion(s, l, r);
    if res.Some? {
      RegroupedUnion(s, u, t, s[l].node.left, s[l].node.right, r, fuel, mid, res);
      if Apart(s, Union(s, l, r)) {
        UnionIsStored(s, l, r);
        ResultIsOrdered(s, t, table, hash, res.value, Union(s, l, r));
      }
    }
    if Joinable(s, l, r) && fuel >= Bound(s, l, r) {
      LeftEnds(s, u, t, l, r, fuel, mid, res);
    }
  }

  lemma LeftUnion(s: Store, l: nat, r: nat)
    requires Acyclic(s) && l < |s| && r < |s| && s[l].node.Or? && s[l].node.left < |s| && Plain(s, s[l].node.left)
    ensures s[l].node.right < |s| && AltSet(s, s[l].node.left) == {s[l].node.left}
    ensures Union(s, l, r) == {s[l].node.left} + Union(s, s[l].node.right, r)
  {
    AltsOf(s, l);
    AltsOf(s, s[l].node.left);
  }

  lemma LeftEnds(s: Store, u: Store, t: Store, l: nat, r: nat, fuel: nat, mid: Option<nat>, res: Option<nat>)
    requires Acyclic(s) && l < |s| && r < |s| && s[l].node.Or? && s[r].node.Or?
    requires s[l].node.left < |s| && Plain(s, s[l].node.left) && s[l].node.right < |s|
    requires Regrouped(s, u, t, s[l].node.left, s[l].node.right, r, fuel, mid, res)
    requires Joinable(s, l, r) && fuel >= Bound(s, l, r)
    ensures res.Some?
  {
    var a := s[l].node.left;
    LeftUnion(s, l, r);
    BoundOfRest(s, l, r);
    assert mid.Some?;
    UnionIsStored(s, l, r);
    LastStep(s, u, a, mid.value, Union(s, l, r));
  }

  lemma LastStep(s: Store, u: Store, a: nat, mid: nat, all: set<nat>)
    requires s <= u && Acyclic(u) && a < |s| && mid < |u| && Plain(s, a)
    requires all == {a} + AltSet(u, mid) && Orderable(s, all) && forall x :: x in all ==> x < |s|
    ensures Joinable(u, a, mid) && Bound(u, a, mid) == |all|
  {
    OrderableStays(s, u, all);
    AltsOf(u, a);
    assert AltSet(u, a) == {a};
    assert Union(u, a, mid) == all;
  }

  lemma BoundOfRest(s: Store, l: nat, r: nat)
    requires Acyclic(s) && l < |s| && r < |s| && s[l].node.Or? && s[r].node.Or?
    ensures s[l].node.right < |s| && Bound(s, l, r) > Bound(s, s[l].node.right, r)
    ensures Bound(s, l, r) > |Union(s, l, r)|
  {
    AltsOf(s, l);
    SubsetIsNoLarger(Union(s, s[l].node.right, r), Union(s, l, r));
  }

  // One alternative joined to a group

  lemma GroupUnion(s: Store, l: nat, r: nat)
    requires Acyclic(s) && l < |s| && r < |s| && Plain(s, l) && s[r].node.Or?
    ensures var p, q := s[r].node.left, s[r].node.right;
            q < |s| && Union(s, l, r) == {p} + ({l} + AltSet(s, q)) && AltSet(s, l) == {l}
  {
    AltsOf(s, l);
    AltsOf(s, r);
  }

  /** The first alternative of the group stays first. */
  lemma FirstStaysFirst(s: Store, table: seq<seq<nat>>, hash: Token -> nat, l: nat, r: nat, w: seq<nat>)
    requires Intact(s, table, hash) && l < |s| && r < |s| && Plain(s, l) && s[r].node.Or? && s[r].node.left < |s|
    requires Stored(s, w) && InOrder(s, w) && Elems(w) == Union(s, l, r)
    requires s[l].key > s[s[r].node.left].key
    ensures w != [] && w[0] == s[r].node.left
  {
    var p, c := s[r].node.left, Alts(s, r);
    GroupUnion(s, l, r);
    NoElems(w);
    AltsOf(s, r);
    OrderIsApart(s, w);
    AltsInOrder(s, table, hash, r);
    assert p in Elems(w) && w[0] in Elems(w);
    LeastOfAll(s, w, p);
    if w[0] != l {
      assert w[0] in c;
      LeastOfAll(s, c, w[0]);
    }
  }

  /** The new alternative cannot come first when its key is above that of the group's right part. */
  lemma NewIsNotFirst(s: Store, table: seq<seq<nat>>, hash: Token -> nat, l: nat, r: nat, w: seq<nat>)
    requires Intact(s, table, hash) && l < |s| && r < |s| && Plain(s, l) && s[r].node.Or?
    requires Stored(s, w) && InOrder(s, w) && Elems(w) == Union(s, l, r)
    requires s[r].node.left < |s| && s[r].node.right < |s| && l != s[r].node.left
    requires s[l].key > s[s[r].node.right].key
    ensures s[l].key > s[s[r].node.left].key
  {
    var p, c := s[r].node.left, Alts(s, r);
    GroupUnion(s, l, r);
    AltsOf(s, r);
    OrderIsApart(s, w);
    AltsInOrder(s, table, hash, r);
    OrEntry(s, table, hash, r);
    KeyOfGroup(s, table, hash, s[r].node.right);
    assert c[1..] == Alts(s, s[r].node.right);
    assert p in Elems(w) && l in Elems(w);
    if s[l].key <= s[p].key {
      NewFirst(s, l, c, w);
    }
  }

  /** An alternative with the least key is first, and the key of the group behind it is not below its own. */
  lemma NewFirst(s: Store, l: nat, c: seq<nat>, w: seq<nat>)
    requires Stored(s, c) && InOrder(s, c) && Stored(s, w) && InOrder(s, w) && l < |s| && |c| >= 2
    requires Elems(w) == {l} + Elems(c) && s[l].key < s[c[0]].key
    ensures s[l].key <= GroupKey(s, c[1..])
  {
    NoElems(w);
    assert l in Elems(w) && w[0] in Elems(w);
    LeastOfAll(s, w, l);
    if w[0] != l {
      assert w[0] in c;
      LeastOfAll(s, c, w[0]);
    }
    TailElems(s, w);
    if l in c {
      LeastOfAll(s, c, l);
    }
    OneOrder(s, w[1..], c);
    assert w[2..] == c[1..];
  }

  /** What is left of a list in order, once stored, only waits for its first element. */
  lemma RestIsSettled(s: Store, u: Store, table: seq<seq<nat>>, hash: Token -> nat, w: seq<nat>, mid: nat)
    requires s <= u && Intact(u, table, hash) && mid < |u|
    requires Stored(s, w) && InOrder(s, w) && |w| >= 2 && Plain(s, w[0])
    requires AltSet(u, mid) == Elems(w) - {w[0]}
    ensures !u[mid].node.Forbid? && Settled(u, w[0], mid)
  {
    TailElems(s, w);
    OrderStays(s, u, w);
    OrderIsApart(u, w[1..]);
    AltsInOrder(u, table, hash, mid);
    OneOrder(u, Alts(u, mid), w[1..]);
    AltsOf(u, mid);
    if u[mid].node.Or? {
      AltsOfRight(u, table, hash, mid);
      assert w[1..][1..] == w[2..];
    }
  }

  /** The right part of a node is a group behind the first alternative, or an alternative itself. */
  lemma AltsOfRight(s: Store, table: seq<seq<nat>>, hash: Token -> nat, e: nat)
    requires Intact(s, table, hash) && e < |s| && s[e].node.Or?
    ensures var c, q := Alts(s, e), s[e].node.right;
            && |c| >= 2 && c[0] == s[e].node.left && q < |s| && Stored(s, c[1..]) && GroupKey(s, c[1..]) == s[q].key
            && (Plain(s, q) ==> q in c[1..])
  {
    OrEntry(s, table, hash, e);
    AltsOf(s, e);
    AltsOf(s, s[e].node.right);
    KeyOfGroup(s, table, hash, s[e].node.right);
    assert Alts(s, e)[1..] == Alts(s, s[e].node.right);
  }

  /** l and the right part of the group, in either order. */
  ghost predicate Inner(s: Store, l: nat, r: nat, b: nat, c: nat)
    requires r < |s| && s[r].node.Or?
  {
    (b == s[r].node.right && c == l) || (b == l && c == s[r].node.right)
  }

  lemma InnerUnion(s: Store, l: nat, r: nat, b: nat, c: nat)
    requires Acyclic(s) && l < |s| && r < |s| && Plain(s, l) && s[r].node.Or? && Inner(s, l, r, b, c)
    ensures b < |s| && c < |s|
    ensures Union(s, l, r) == {s[r].node.left} + Union(s, b, c)
    ensures !(s[b].node.Or? && s[c].node.Or?) && (s[c].node.Or? ==> Depth(s, b) == 0)
  {
    GroupUnion(s, l, r);
  }

  /** Without the first alternative, l and the right part can be put in order, and need less fuel. */
  lemma InnerOrder(s: Store, table: seq<seq<nat>>, hash: Token -> nat, l: nat, r: nat, b: nat, c: nat, w: seq<nat>)
    requires Intact(s, table, hash)
    requires l < |s| && r < |s| && Plain(s, l) && s[r].node.Or? && s[r].node.left < |s| && s[r].node.right < |s|
    requires l != s[r].node.left && Inner(s, l, r, b, c)
    requires s[l].key > s[s[r].node.right].key || s[l].key > s[s[r].node.left].key
    requires Stored(s, w) && InOrder(s, w) && Elems(w) == Union(s, l, r)
    ensures |w| >= 2 && w[0] == s[r].node.left && Plain(s, w[0])
    ensures b < |s| && c < |s| && Union(s, b, c) == Elems(w) - {w[0]} && Orderable(s, Union(s, b, c))
  {
    if s[l].key > s[s[r].node.right].key {
      NewIsNotFirst(s, table, hash, l, r, w);
    }
    FirstStaysFirst(s, table, hash, l, r, w);
    InnerUnion(s, l, r, b, c);
    TailElems(s, w);
    OrEntry(s, table, hash, r);
    OrderIsApart(s, w);
    FirstIsNotInside(s, table, hash, l, r, b, c);
    assert Stored(s, w[1..]) && Elems(w[1..]) == Union(s, b, c);
    GroupUnion(s, l, r);
    assert l in Elems(w[1..]);
  }

  lemma InnerEnds(s: Store, l: nat, r: nat, b: nat, c: nat, p: nat)
    requires Acyclic(s) && l < |s| && r < |s| && Plain(s, l) && s[r].node.Or? && Inner(s, l, r, b, c)
    requires b < |s| && c < |s| && Orderable(s, Union(s, b, c))
    requires p in Union(s, l, r) && Union(s, b, c) == Union(s, l, r) - {p}
    ensures Joinable(s, b, c) && Bound(s, l, r) > Bound(s, b, c)
  {
    InnerUnion(s, l, r, b, c);
    SubsetIsNoLarger(Union(s, b, c) + {p}, Union(s, l, r));
    assert |Union(s, b, c) + {p}| == |Union(s, b, c)| + 1;
  }

  lemma GroupEnds(s: Store, u: Store, t: Store, table: seq<seq<nat>>, hash: Token -> nat, l: nat, r: nat, b: nat,
                  c: nat, fuel: nat, mid: Option<nat>, res: Option<nat>, now: seq<seq<nat>>)
    requires Intact(s, table, hash) && (mid.Some? ==> Intact(u, now, hash))
    requires l < |s| && r < |s| && Plain(s, l) && s[r].node.Or? && s[r].node.left < |s| && s[r].node.right < |s|
    requires l != s[r].node.left && Inner(s, l, r, b, c)
    requires s[l].key > s[s[r].node.right].key || s[l].key > s[s[r].node.left].key
    requires Regrouped(s, u, t, s[r].node.left, b, c, fuel, mid, res)
    requires Orderable(s, Union(s, l, r)) && fuel >= Bound(s, l, r)
    ensures res.Some?
  {
    var w :| Stored(s, w) && InOrder(s, w) && Elems(w) == Union(s, l, r);
    InnerOrder(s, table, hash, l, r, b, c, w);
    assert w[0] in Elems(w);
    InnerEnds(s, l, r, b, c, w[0]);
    assert mid.Some?;
    RestIsSettled(s, u, now, hash, w, mid.value);
  }

  lemma FirstIsNotInside(s: Store, table: seq<seq<nat>>, hash: Token -> nat, l: nat, r: nat, b: nat, c: nat)
    requires Intact(s, table, hash) && l < |s| && r < |s| && Plain(s, l) && s[r].node.Or? && Inner(s, l, r, b, c)
    requires l != s[r].node.left && Apart(s, Union(s, l, r))
    ensures b < |s| && c < |s| && s[r].node.left !in Union(s, b, c)
  {
    InnerUnion(s, l, r, b, c);
    GroupUnion(s, l, r);
    AltsOf(s, r);
    AltsInOrder(s, table, hash, r);
    TailElems(s, Alts(s, r));
    assert Alts(s, r)[1..] == Alts(s, s[r].node.right);
  }

  /** One alternative joined to a group: it goes further in, and then the first one goes in front again. */
  lemma RegroupGroup(s: Store, u: Store, t: Store, table: seq<seq<nat>>, hash: Token -> nat, l: nat, r: nat, b: nat,
                     c: nat, fuel: nat, mid: Option<nat>, res: Option<nat>, now: seq<seq<nat>>, after: seq<seq<nat>>)
    requires Intact(s, table, hash) && (mid.Some? ==> Intact(u, now, hash)) && Intact(t, after, hash)
    requires l < |s| && r < |s| && Plain(s, l) && s[r].node.Or? && s[r].node.left < |s| && s[r].node.right < |s|
    requires l != s[r].node.left && Inner(s, l, r, b, c)
    requires s[l].key > s[s[r].node.right].key || s[l].key > s[s[r].node.left].key
    requires Regrouped(s, u, t, s[r].node.left, b, c, fuel, mid, res)
    ensures Joins(s, t, l, r, fuel, res)
  {
    InnerUnion(s, l, r, b, c);
    OrEntry(s, table, hash, r);
    AltsOf(s, s[r].node.left);
    assert AltSet(s, s[r].node.left) == {s[r].node.left};
    if res.Some? {
      RegroupedUnion(s, u, t, s[r].node.left, b, c, fuel, mid, res);
      if Apart(s, Union(s, l, r)) {
        UnionIsStored(s, l, r);
        ResultIsOrdered(s, t, after, hash, res.value, Union(s, l, r));
      }
    }
    if Joinable(s, l, r) && fuel >= Bound(s, l, r) {
      GroupEnds(s, u, t, table, hash, l, r, b, c, fuel, mid, res, now);
    }
  }

  // The exits of the constructor

  /** What makes the constructor return one of the parts: the other one is forbidden, the same, or inside. */
  ghost predicate Redundant(s: Store, l: nat, r: nat, e: nat)
    requires l < |s| && r < |s|
  {
    || (e == r && s[l].node.Forbid?)
    || (e == l && s[r].node.Forbid?)
    || (e == r && l == r)
    || (e == r && s[r].node.Or? && (l == s[r].node.left || l == s[r].node.right))
    || (e == l && s[l].node.Or? && !s[r].node.Or? && (r == s[l].node.left || r == s[l].node.right))
  }

  lemma PartIsInside(s: Store, part: nat, e: nat)
    requires WellFormed(s) && Acyclic(s) && e < |s| && s[e].node.Or?
    requires part == s[e].node.left || part == s[e].node.right
    ensures part < |s| && AltSet(s, part) <= AltSet(s, e) && L(s, part) <= L(s, e) && e != FORBIDDEN
  {
    OrIsSettled(s, e);
    OnlyStatics(s, s[e].node.left);
    AltsOf(s, e);
    AltsOf(s, s[e].node.left);
  }

  lemma ExitDone(s: Store, table: seq<seq<nat>>, hash: Token -> nat, l: nat, r: nat, fuel: nat, e: nat)
    requires Intact(s, table, hash) && l < |s| && r < |s| && Redundant(s, l, r, e)
    ensures OrDone(s, s, l, r, fuel, Some(e))
  {
    ExitMeans(s, l, r, e);
    RedundantIsNotInPlace(s, l, r, e);
    EarlyExit(s, table, hash, l, r, fuel, e);
  }

  lemma RedundantIsNotInPlace(s: Store, l: nat, r: nat, e: nat)
    requires l < |s| && r < |s| && Redundant(s, l, r, e)
    ensures !InPlace(s, l, r)
  {
  }

  lemma ExitMeans(s: Store, l: nat, r: nat, e: nat)
    requires WellFormed(s) && Acyclic(s) && l < |s| && r < |s| && Redundant(s, l, r, e)
    ensures Means(s, s, l, r, Some(e))
    ensures (e == r && AltSet(s, l) <= AltSet(s, r)) || (e == l && AltSet(s, r) <= AltSet(s, l) && !s[r].node.Or?)
  {
    OnlyStatics(s, l);
    OnlyStatics(s, r);
    OrsAreReduced(s, l, r);
    if e == r && s[r].node.Or? && (l == s[r].node.left || l == s[r].node.right) {
      PartIsInside(s, l, r);
    } else if e == l && s[l].node.Or? && !s[r].node.Or? && (r == s[l].node.left || r == s[l].node.right) {
      PartIsInside(s, r, l);
    }
  }

  lemma SwappedDone(s: Store, t: Store, l: nat, r: nat, fuel: nat, res: Option<nat>)
    requires WellFormed(s) && OrDone(s, t, r, l, fuel, res) && !s[r].node.Or?
    requires s[l].node.Or? || s[l].key > s[r].key
    ensures OrDone(s, t, l, r, fuel, res)
  {
    OrsAreReduced(s, l, r);
    SwappedJoins(s, t, l, r, fuel, res);
  }

  lemma NewNodeDone(s: Store, t: Store, table: seq<seq<nat>>, hash: Token -> nat, l: nat, r: nat, fuel: nat, e: nat)
    requires Acyclic(s) && s <= t && Intact(t, table, hash) && l < |s| && r < |s| && Plain(s, l)
    requires e < |t| && e != FORBIDDEN && l != FORBIDDEN && t[e].node == Or(l, r)
    requires forall i :: 0 <= i < |s| && s[i].node == Or(l, r) ==> e == i && t == s
    ensures OrDone(s, t, l, r, fuel, Some(e))
  {
    LanguageStays(s, t, l);
    LanguageStays(s, t, r);
    NewNodeJoins(s, t, table, hash, l, r, fuel, e);
  }

  /** Two steps keep the meaning. */
  lemma RegroupedMeans(s: Store, u: Store, t: Store, a: nat, b: nat, c: nat, fuel: nat, mid: Option<nat>,
                       res: Option<nat>)
    requires Regrouped(s, u, t, a, b, c, fuel, mid, res) && res.Some?
    ensures L(t, res.value) == L(s, a) + (L(s, b) + L(s, c)) && (a != FORBIDDEN ==> res.value != FORBIDDEN)
  {
    LanguageStays(s, u, a);
  }

  lemma LeftDone(s: Store, u: Store, t: Store, table: seq<seq<nat>>, hash: Token -> nat, l: nat, r: nat, fuel: nat,
                 mid: Option<nat>, res: Option<nat>, before: seq<seq<nat>>)
    requires Intact(s, before, hash) && Intact(t, table, hash)
    requires l < |s| && r < |s| && s[l].node.Or? && s[r].node.Or?
    requires Regrouped(s, u, t, s[l].node.left, s[l].node.right, r, fuel, mid, res)
    ensures OrDone(s, t, l, r, fuel, res)
  {
    LeftMeans(s, u, t, l, r, fuel, mid, res);
    RegroupLeft(s, u, t, table, hash, l, r, fuel, mid, res, before);
  }

  lemma LeftMeans(s: Store, u: Store, t: Store, l: nat, r: nat, fuel: nat, mid: Option<nat>, res: Option<nat>)
    requires WellFormed(s) && l < |s| && r < |s| && s[l].node.Or? && s[r].node.Or?
    requires Regrouped(s, u, t, s[l].node.left, s[l].node.right, r, fuel, mid, res)
    ensures Means(s, t, l, r, res)
  {
    OnlyStatics(s, l);
    OrIsSettled(s, l);
    OrsAreReduced(s, l, r);
    if res.Some? {
      RegroupedMeans(s, u, t, s[l].node.left, s[l].node.right, r, fuel, mid, res);
      assert L(s, l) == L(s, s[l].node.left) + L(s, s[l].node.right);
    }
  }

  lemma GroupDone(s: Store, u: Store, t: Store, table: seq<seq<nat>>, hash: Token -> nat, l: nat, r: nat, b: nat,
                  c: nat, fuel: nat, mid: Option<nat>, res: Option<nat>, now: seq<seq<nat>>, after: seq<seq<nat>>)
    requires Intact(s, table, hash) && (mid.Some? ==> Intact(u, now, hash)) && Intact(t, after, hash)
    requires l < |s| && r < |s| && Plain(s, l) && s[r].node.Or? && s[r].node.left < |s| && s[r].node.right < |s|
    requires l != s[r].node.left && Inner(s, l, r, b, c)
    requires s[l].key > s[s[r].node.right].key || s[l].key > s[s[r].node.left].key
    requires Regrouped(s, u, t, s[r].node.left, b, c, fuel, mid, res)
    ensures OrDone(s, t, l, r, fuel, res)
  {
    GroupMeans(s, u, t, l, r, b, c, fuel, mid, res);
    RegroupGroup(s, u, t, table, hash, l, r, b, c, fuel, mid, res, now, after);
  }

  lemma GroupMeans(s: Store, u: Store, t: Store, l: nat, r: nat, b: nat, c: nat, fuel: nat, mid: Option<nat>,
                   res: Option<nat>)
    requires WellFormed(s)
    requires l < |s| && r < |s| && Plain(s, l) && s[r].node.Or? && s[r].node.left < |s| && s[r].node.right < |s|
    requires Inner(s, l, r, b, c)
    requires s[l].key > s[s[r].node.right].key || s[l].key > s[s[r].node.left].key
    requires Regrouped(s, u, t, s[r].node.left, b, c, fuel, mid, res)
    ensures Means(s, t, l, r, res)
  {
    OnlyStatics(s, l);
    OrIsSettled(s, r);
    OrsAreReduced(s, l, r);
    if res.Some? {
      RegroupedMeans(s, u, t, s[r].node.left, b, c, fuel, mid, res);
      assert L(s, r) == L(s, s[r].node.left) + L(s, s[r].node.right);
    }
  }
}
