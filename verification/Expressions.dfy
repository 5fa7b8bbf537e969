/** Hash-consed expression nodes, the rewriting constructors, and what they denote. */
module Expressions {
  import opened Languages

  /** Nodes refer to their parts by position in the store. */
  datatype Node =
    | Forbid
    | Empty
    | Atom(name: Token)
    | Or(left: nat, right: nat)
    | Seq(left: nat, right: nat)
    | Count(body: nat, min: int, max: int)

  datatype Entry = Entry(node: Node, key: nat, nillable: bool)

  type Store = seq<Entry>

  /** The two static nodes. */
  const FORBIDDEN: nat := 0
  const EMPTY: nat := 1

  ghost predicate PartsBelow(n: Node, i: nat) {
    match n
    case Forbid => true
    case Empty => true
    case Atom(_) => true
    case Or(l, r) => l < i && r < i
    case Seq(l, r) => l < i && r < i
    case Count(b, _, _) => b < i
  }

  ghost predicate Acyclic(s: Store) {
    forall i :: 0 <= i < |s| ==> PartsBelow(s[i].node, i)
  }

  /** The words a node stands for. */
  ghost function L(s: Store, e: nat): Language
    requires Acyclic(s) && e < |s|
    decreases e
  {
    assert PartsBelow(s[e].node, e);
    match s[e].node
    case Forbid => NOTHING
    case Empty => EMPTY_WORD
    case Atom(a) => iset{[a]}
    case Or(l, r) => L(s, l) + L(s, r)
    case Seq(l, r) => Cat(L(s, l), L(s, r))
    case Count(b, min, max) => Rep(L(s, b), min, max)
  }

  /** An OR node never has an OR on the left, repeats no part, and its parts are ordered by key. */
  ghost predicate Settled(s: Store, l: nat, r: nat)
    requires l < |s| && r < |s|
  {
    && !s[l].node.Or? && l != r
    && if s[r].node.Or? then Before(s, l, s[r].node.left) && Before(s, l, s[r].node.right) else s[l].key <= s[r].key
  }

  ghost predicate Before(s: Store, l: nat, part: nat)
    requires l < |s|
  {
    part < |s| && l != part && s[l].key <= s[part].key
  }

  /** What the constructors guarantee of a node over the store below it. */
  ghost predicate Canonical(s: Store, n: Node, nillable: bool) {
    match n
    case Forbid => false
    case Empty => false
    case Atom(_) => !nillable
    case Or(l, r) =>
      && l < |s| && r < |s| && Settled(s, l, r) && l != FORBIDDEN && r != FORBIDDEN
      && nillable == (s[l].nillable || s[r].nillable)
    case Seq(l, r) =>
      l < |s| && r < |s| && {l, r} !! {FORBIDDEN, EMPTY} && nillable == (s[l].nillable && s[r].nillable)
    case Count(b, min, max) =>
      b < |s| && WellFormedCount(min, max) && !(min == max && min <= 1) && nillable == (min == 0 || s[b].nillable)
  }

  ghost predicate WellFormed(s: Store) {
    && |s| >= 2 && s[FORBIDDEN] == Entry(Forbid, 0, false) && s[EMPTY] == Entry(Empty, 0, true)
    && (forall i :: 2 <= i < |s| ==> Canonical(s[..i], s[i].node, s[i].nillable))
  }

  lemma WellFormedIsAcyclic(s: Store)
    requires WellFormed(s)
    ensures Acyclic(s)
  {
    forall i | 0 <= i < |s|
      ensures PartsBelow(s[i].node, i)
    {
      if i >= 2 {
        assert Canonical(s[..i], s[i].node, s[i].nillable);
      }
    }
  }

  lemma Extend(s: Store, e: Entry)
    requires WellFormed(s) && Canonical(s, e.node, e.nillable)
    ensures WellFormed(s + [e])
  {
    var t := s + [e];
    forall i | 2 <= i < |t|
      ensures Canonical(t[..i], t[i].node, t[i].nillable)
    {
      assert t[..i] == s[..i];
      if i == |s| {
        assert s[..i] == s;
      }
    }
  }

  /** Adding nodes changes no meaning. */
  lemma {:induction false} LanguageStays(s: Store, t: Store, e: nat)
    requires Acyclic(s) && Acyclic(t) && s <= t && e < |s|
    ensures L(s, e) == L(t, e)
    decreases e
  {
    assert PartsBelow(s[e].node, e) && t[e] == s[e];
    match s[e].node
    case Or(l, r) => LanguageStays(s, t, l); LanguageStays(s, t, r);
    case Seq(l, r) => LanguageStays(s, t, l); LanguageStays(s, t, r);
    case Count(b, _, _) => LanguageStays(s, t, b);
    case _ =>
  }

  /** Swapping the parts of one OR node in place would change no meaning either. */
  lemma {:induction false} SwapKeepsLanguages(s: Store, o: nat, e: nat)
    requires Acyclic(s) && o < |s| && s[o].node.Or? && e < |s|
    ensures var t := s[o := s[o].(node := Or(s[o].node.right, s[o].node.left))];
            Acyclic(t) && L(t, e) == L(s, e)
    decreases e
  {
    var t := s[o := s[o].(node := Or(s[o].node.right, s[o].node.left))];
    assert Acyclic(t) by {
      forall i | 0 <= i < |t|
        ensures PartsBelow(t[i].node, i)
      {
        assert PartsBelow(s[i].node, i);
      }
    }
    assert PartsBelow(s[e].node, e);
    match s[e].node
    case Or(l, r) => SwapKeepsLanguages(s, o, l); SwapKeepsLanguages(s, o, r);
    case Seq(l, r) => SwapKeepsLanguages(s, o, l); SwapKeepsLanguages(s, o, r);
    case Count(b, _, _) => SwapKeepsLanguages(s, o, b);
    case _ =>
  }

  /** The cached bit holds exactly when the empty word is accepted. */
  lemma {:induction false} NillableIsExact(s: Store, e: nat)
    requires WellFormed(s) && e < |s|
    ensures Acyclic(s) && (s[e].nillable <==> [] in L(s, e))
    decreases e
  {
    WellFormedIsAcyclic(s);
    if e >= 2 {
      assert Canonical(s[..e], s[e].node, s[e].nillable);
      match s[e].node
      case Or(l, r) => NillableIsExact(s, l); NillableIsExact(s, r);
      case Seq(l, r) =>
        NillableIsExact(s, l);
        NillableIsExact(s, r);
        EmptyInCat(L(s, l), L(s, r));
      case Count(b, min, max) =>
        NillableIsExact(s, b);
        EmptyInRep(L(s, b), min, max);
      case Atom(_) =>
    }
  }

  /** Arithmetic of the 16-bit keys. */
  function Short(v: int): nat {
    v % 0x10000
  }

  /** The key of a node, from the keys of its parts and a hash of names. */
  ghost function KeyOf(s: Store, n: Node, hash: Token -> nat): nat
    requires PartsBelow(n, |s|)
  {
    match n
    case Forbid => 0
    case Empty => 0
    case Atom(a) => Short(hash(a))
    case Or(l, r) => Short((s[l].key + s[r].key) * 7)
    case Seq(l, r) => Short((s[l].key + s[r].key) * 3)
    case Count(b, min, max) => Short((if max == -1 then min + 79 else max - min) + s[b].key)
  }

  /** Every node but the static ones has its key, and stands in the bucket of that key. */
  ghost predicate Hashed(s: Store, table: seq<seq<nat>>, hash: Token -> nat) {
    && |table| > 0
    && (forall i :: 2 <= i < |s| ==> HashedAt(s, table, hash, i))
    && forall b, i :: 0 <= b < |table| && 0 <= i < |table[b]| ==> table[b][i] < |s|
  }

  ghost predicate HashedAt(s: Store, table: seq<seq<nat>>, hash: Token -> nat, i: nat)
    requires i < |s| && |table| > 0
  {
    && PartsBelow(s[i].node, |s|)
    && s[i].key == KeyOf(s, s[i].node, hash) && i in table[s[i].key % |table|]
  }

  /** No node is stored twice. */
  ghost predicate Unique(s: Store) {
    forall i, j :: 2 <= i < j < |s| ==> s[i].node != s[j].node
  }

  lemma KeyStays(s: Store, t: Store, n: Node, hash: Token -> nat)
    requires s <= t && PartsBelow(n, |s|)
    ensures PartsBelow(n, |t|) && KeyOf(t, n, hash) == KeyOf(s, n, hash)
  {
  }

  /** A node that is not in its bucket is nowhere in the store. */
  lemma NowhereElse(s: Store, table: seq<seq<nat>>, hash: Token -> nat, n: Node, e: nat)
    requires Hashed(s, table, hash) && PartsBelow(n, |s|) && 2 <= e < |s| && s[e].node == n
    ensures s[e].key == KeyOf(s, n, hash) && e in table[KeyOf(s, n, hash) % |table|]
  {
    assert HashedAt(s, table, hash, e);
  }

  lemma AddHashed(s: Store, table: seq<seq<nat>>, hash: Token -> nat, e: Entry)
    requires Hashed(s, table, hash) && PartsBelow(e.node, |s|) && e.key == KeyOf(s, e.node, hash)
    ensures var b := e.key % |table|; Hashed(s + [e], table[b := [|s|] + table[b]], hash)
  {
    var t, b := s + [e], e.key % |table|;
    var after := table[b := [|s|] + table[b]];
    forall i | 2 <= i < |t|
      ensures HashedAt(t, after, hash, i)
    {
      if i < |s| {
        assert HashedAt(s, table, hash, i);
        KeyStays(s, t, t[i].node, hash);
      } else {
        KeyStays(s, t, e.node, hash);
      }
    }
  }

  /** In a store without duplicates a canonical node has one entry. */
  lemma OnlyOne(s: Store, n: Node, e: nat)
    requires WellFormed(s) && Unique(s) && e < |s| && s[e].node == n && !n.Forbid? && !n.Empty?
    ensures forall i :: 0 <= i < |s| && s[i].node == n ==> i == e
  {
  }

  /** Only the static nodes are of the two special kinds. */
  lemma OnlyStatics(s: Store, e: nat)
    requires WellFormed(s) && e < |s|
    ensures s[e].node == Forbid <==> e == FORBIDDEN
    ensures s[e].node == Empty <==> e == EMPTY
  {
    if e >= 2 {
      assert Canonical(s[..e], s[e].node, s[e].nillable);
    }
  }

  /** No count that the constructor would reduce is stored. */
  lemma CountsAreReduced(s: Store, b: nat, min: int, max: int)
    requires WellFormed(s) && (min < 0 || (min == max && min <= 1))
    ensures forall e :: 0 <= e < |s| ==> s[e].node != Count(b, min, max)
  {
    forall e | 0 <= e < |s|
      ensures s[e].node != Count(b, min, max)
    {
      if e >= 2 {
        assert Canonical(s[..e], s[e].node, s[e].nillable);
      }
    }
  }

  lemma SeqsAreReduced(s: Store, l: nat, r: nat)
    requires WellFormed(s)
    ensures forall e :: 0 <= e < |s| && s[e].node == Seq(l, r) ==> {l, r} !! {FORBIDDEN, EMPTY}
  {
    forall e | 0 <= e < |s| && s[e].node == Seq(l, r)
      ensures {l, r} !! {FORBIDDEN, EMPTY}
    {
      assert Canonical(s[..e], s[e].node, s[e].nillable);
    }
  }

  /** A stored alternative is one that the constructor leaves as it is. */
  lemma OrsAreReduced(s: Store, l: nat, r: nat)
    requires WellFormed(s)
    ensures forall e :: 0 <= e < |s| && s[e].node == Or(l, r) ==>
      l < |s| && r < |s| && l != FORBIDDEN && r != FORBIDDEN && Settled(s, l, r)
  {
    forall e | 0 <= e < |s| && s[e].node == Or(l, r)
      ensures l < |s| && r < |s| && l != FORBIDDEN && r != FORBIDDEN && Settled(s, l, r)
    {
      OrIsSettled(s, e);
    }
  }

  lemma OrIsSettled(s: Store, e: nat)
    requires WellFormed(s) && e < |s|
    ensures s[e].node.Or? ==>
      var l, r := s[e].node.left, s[e].node.right;
      l < e && r < e && l != FORBIDDEN && r != FORBIDDEN && Settled(s, l, r)
  {
    if e >= 2 {
      assert Canonical(s[..e], s[e].node, s[e].nillable);
    }
  }
}
