/** Trees that are built as they are read: what a store holds, and what parsing prints back. */
module StoredTrees {
  import opened Results
  import opened Languages
  import opened Expressions
  import opened Alternatives
  import opened Printing
  import opened Parsing
  import opened RoundTrip

  /** The key of a node depends on its tree alone. */
  ghost function TreeKey(e: Expr, hash: Token -> nat): nat {
    match e
    case ForbidExpr => 0
    case EmptyExpr => 0
    case AtomExpr(a) => Short(hash(a))
    case OrExpr(l, r) => Short((TreeKey(l, hash) + TreeKey(r, hash)) * 7)
    case SeqExpr(l, r) => Short((TreeKey(l, hash) + TreeKey(r, hash)) * 3)
    case CountExpr(b, min, max) => Short((if max == -1 then min + 79 else max - min) + TreeKey(b, hash))
  }

  /** An alternative that the constructor leaves as it is. */
  ghost predicate SettledTrees(l: Expr, r: Expr, hash: Token -> nat) {
    && !l.OrExpr? && l != r
    && if r.OrExpr? then TreeBefore(l, r.left, hash) && TreeBefore(l, r.right, hash)
       else TreeKey(l, hash) <= TreeKey(r, hash)
  }

  ghost predicate TreeBefore(l: Expr, part: Expr, hash: Token -> nat) {
    l != part && TreeKey(l, hash) <= TreeKey(part, hash)
  }

  /** A tree without static nodes on which no constructor has anything to rewrite. */
  ghost predicate Normal(e: Expr, hash: Token -> nat) {
    match e
    case ForbidExpr => false
    case EmptyExpr => false
    case AtomExpr(_) => true
    case OrExpr(l, r) => Normal(l, hash) && Normal(r, hash) && SettledTrees(l, r, hash)
    case SeqExpr(l, r) => Normal(l, hash) && Normal(r, hash)
    case CountExpr(b, min, max) => Normal(b, hash) && WellFormedCount(min, max) && !(min == max && min <= 1)
  }

  // Trees and nodes

  lemma EntryKey(s: Store, table: seq<seq<nat>>, hash: Token -> nat, e: nat)
    requires Intact(s, table, hash) && e < |s|
    ensures PartsBelow(s[e].node, e) && s[e].key == KeyOf(s, s[e].node, hash)
  {
    OnlyStatics(s, e);
    assert PartsBelow(s[e].node, e);
    if e >= 2 {
      assert HashedAt(s, table, hash, e);
    }
  }

  lemma {:induction false} KeyOfTree(s: Store, table: seq<seq<nat>>, hash: Token -> nat, e: nat)
    requires Intact(s, table, hash) && e < |s|
    ensures s[e].key == TreeKey(TreeOf(s, e), hash)
    decreases e
  {
    EntryKey(s, table, hash, e);
    match s[e].node
    case Or(l, r) => KeyOfTree(s, table, hash, l); KeyOfTree(s, table, hash, r);
    case Seq(l, r) => KeyOfTree(s, table, hash, l); KeyOfTree(s, table, hash, r);
    case Count(b, _, _) => KeyOfTree(s, table, hash, b);
    case _ =>
  }

  /**
   * The keys of stored nodes, in 16 bits, and the place of alternatives: the left one is none of several
   * itself, and its key is not above those of the right one or its two parts.
   */
  lemma StoredNodes(s: Store, table: seq<seq<nat>>, hash: Token -> nat, e: nat)
    requires Intact(s, table, hash) && e < |s|
    ensures match s[e].node
            case Forbid => s[e].key == 0
            case Empty => s[e].key == 0
            case Atom(a) => s[e].key == hash(a) % 65536
            case Seq(l, r) => l < e && r < e && s[e].key == (s[l].key + s[r].key) * 3 % 65536
            case Or(l, r) =>
              && l < e && r < e && s[e].key == (s[l].key + s[r].key) * 7 % 65536
              && l != r && !s[l].node.Or?
              && (if s[r].node.Or? then
                    var b, c := s[r].node.left, s[r].node.right;
                    b < r && c < r && l != b && l != c && s[l].key <= s[b].key && s[l].key <= s[c].key
                  else
                    s[l].key <= s[r].key)
            case Count(b, min, max) =>
              b < e && s[e].key == ((if max == -1 then min + 79 else max - min) + s[b].key) % 65536
  {
    EntryKey(s, table, hash, e);
    if s[e].node.Or? {
      OrEntry(s, table, hash, e);
      var r := s[e].node.right;
      if s[r].node.Or? {
        OrEntry(s, table, hash, r);
      }
    }
  }

  /** Nodes are in place exactly when their trees are. */
  lemma TreesInPlace(s: Store, table: seq<seq<nat>>, hash: Token -> nat, l: nat, r: nat)
    requires Intact(s, table, hash) && Unique(s) && l < |s| && r < |s| && Plain(s, l) && !s[r].node.Forbid?
    ensures Settled(s, l, r) <==> SettledTrees(TreeOf(s, l), TreeOf(s, r), hash)
  {
    TreesDiffer(s, l, r);
    KeyOfTree(s, table, hash, l);
    KeyOfTree(s, table, hash, r);
    if s[r].node.Or? {
      OrEntry(s, table, hash, r);
      TreesDiffer(s, l, s[r].node.left);
      TreesDiffer(s, l, s[r].node.right);
      KeyOfTree(s, table, hash, s[r].node.left);
      KeyOfTree(s, table, hash, s[r].node.right);
    }
  }

  lemma TreesDiffer(s: Store, d: nat, e: nat)
    requires WellFormed(s) && Acyclic(s) && Unique(s) && d < |s| && e < |s|
    ensures d == e <==> TreeOf(s, d) == TreeOf(s, e)
  {
    if TreeOf(s, d) == TreeOf(s, e) {
      SameTreeSameNode(s, d, e);
    }
  }

  lemma {:induction false} TreeStays(s: Store, t: Store, e: nat)
    requires Acyclic(s) && Acyclic(t) && s <= t && e < |s|
    ensures TreeOf(s, e) == TreeOf(t, e)
    decreases e
  {
    assert PartsBelow(s[e].node, e) && t[e] == s[e];
    match s[e].node
    case Or(l, r) => TreeStays(s, t, l); TreeStays(s, t, r);
    case Seq(l, r) => TreeStays(s, t, l); TreeStays(s, t, r);
    case Count(b, _, _) => TreeStays(s, t, b);
    case _ =>
  }

  /** Whatever is stored, and has no static node, is normal. */
  lemma {:induction false} StoredIsNormal(s: Store, table: seq<seq<nat>>, hash: Token -> nat, e: nat)
    requires Intact(s, table, hash) && Unique(s) && e < |s| && NoStatics(TreeOf(s, e))
    ensures Normal(TreeOf(s, e), hash)
    decreases e
  {
    OnlyStatics(s, e);
    assert PartsBelow(s[e].node, e);
    assert Canonical(s[..e], s[e].node, s[e].nillable);
    match s[e].node
    case Or(l, r) =>
      OrEntry(s, table, hash, e);
      TreesInPlace(s, table, hash, l, r);
      StoredIsNormal(s, table, hash, l);
      StoredIsNormal(s, table, hash, r);
    case Seq(l, r) =>
      StoredIsNormal(s, table, hash, l);
      StoredIsNormal(s, table, hash, r);
    case Count(b, _, _) => StoredIsNormal(s, table, hash, b);
    case _ =>
  }

  // What is read from a text

  ghost predicate Holds(s: Store, e: Expr)
    requires Acyclic(s)
  {
    exists d :: 0 <= d < |s| && TreeOf(s, d) == e
  }

  /** A normal tree is built as it stands, and from a store that holds it, nothing is added. */
  ghost predicate Kept(s0: Store, s: Store, r: Option<nat>, e: Expr, hash: Token -> nat)
    requires Acyclic(s0)
  {
    Normal(e, hash) ==>
      && r.Some? && Acyclic(s) && r.value < |s| && TreeOf(s, r.value) == e
      && (Holds(s0, e) ==> s == s0)
  }

  ghost predicate KeptIfRead(s0: Store, s: Store, r: Option<nat>, p: Parsed, hash: Token -> nat)
    requires Acyclic(s0)
  {
    p.Read? ==> Kept(s0, s, r, p.expr, hash)
  }

  lemma QuantifierNotNormal(text: string, pos: nat, e: Option<Expr>, hash: Token -> nat)
    requires pos <= |text| && (e.Some? ==> !Normal(e.value, hash))
    ensures var p := ReadQuantifier(text, pos, e); p.Read? ==> !Normal(p.expr, hash)
  {
  }

  lemma {:induction false} MoreOrNotNormal(text: string, pos: nat, e: Option<Expr>, hash: Token -> nat)
    requires pos <= |text| && (e.Some? ==> !Normal(e.value, hash))
    ensures var p := MoreOr(text, pos, e); p.Read? ==> !Normal(p.expr, hash)
    decreases |text| - pos
  {
    if Cur(text, pos) == '|' && e.Some? {
      var right := ReadOr(text, pos + 1);
      if right.Read? {
        MoreOrNotNormal(text, right.next, Some(OrExpr(e.value, right.expr)), hash);
      }
    }
  }

  lemma {:induction false} MoreSeqNotNormal(text: string, pos: nat, e: Option<Expr>, hash: Token -> nat)
    requires pos <= |text| && (e.Some? ==> !Normal(e.value, hash))
    ensures var p := MoreSeq(text, pos, e); p.Read? ==> !Normal(p.expr, hash)
    decreases |text| - pos
  {
    if Cur(text, pos) == ',' && e.Some? {
      var right := ReadSeq(text, pos + 1);
      if right.Read? {
        MoreSeqNotNormal(text, right.next, Some(SeqExpr(e.value, right.expr)), hash);
      }
    }
  }

  /** If the part after a separator is not normal, neither is anything read with it. */
  lemma OrStops(text: string, pos: nat, e: Option<Expr>, hash: Token -> nat)
    requires pos < |text| && text[pos] == '|'
    requires var right := ReadOr(text, pos + 1); right.Read? ==> !Normal(right.expr, hash)
    ensures var p := MoreOr(text, pos, e); p.Read? ==> !Normal(p.expr, hash)
  {
    var right := ReadOr(text, pos + 1);
    if right.Read? && e.Some? {
      MoreOrNotNormal(text, right.next, Some(OrExpr(e.value, right.expr)), hash);
    }
  }

  lemma SeqStops(text: string, pos: nat, e: Option<Expr>, hash: Token -> nat)
    requires pos < |text| && text[pos] == ','
    requires var right := ReadSeq(text, pos + 1); right.Read? ==> !Normal(right.expr, hash)
    ensures var p := MoreSeq(text, pos, e); p.Read? ==> !Normal(p.expr, hash)
  {
    var right := ReadSeq(text, pos + 1);
    if right.Read? && e.Some? {
      MoreSeqNotNormal(text, right.next, Some(SeqExpr(e.value, right.expr)), hash);
    }
  }

  // The node of a tree, from the nodes of its parts

  lemma PartsHeld(s: Store, e: Expr)
    requires Acyclic(s) && Holds(s, e)
    ensures e.OrExpr? || e.SeqExpr? ==> Holds(s, e.left) && Holds(s, e.right)
    ensures e.CountExpr? ==> Holds(s, e.body)
  {
    var d :| 0 <= d < |s| && TreeOf(s, d) == e;
    assert PartsBelow(s[d].node, d);
    match s[d].node
    case Or(l, r) => assert TreeOf(s, l) == e.left && TreeOf(s, r) == e.right;
    case Seq(l, r) => assert TreeOf(s, l) == e.left && TreeOf(s, r) == e.right;
    case Count(b, _, _) => assert TreeOf(s, b) == e.body;
    case _ =>
  }

  /** A stored tree with these parts is the node of these parts. */
  lemma HeldNode(s: Store, e: Expr, n: Node)
    requires WellFormed(s) && Acyclic(s) && Unique(s) && Holds(s, e) && NodeFor(s, n, e)
    ensures exists d :: 0 <= d < |s| && s[d].node == n && TreeOf(s, d) == e
  {
    var d :| 0 <= d < |s| && TreeOf(s, d) == e;
    assert PartsBelow(s[d].node, d);
    match n
    case Or(l, r) => SameTreeSameNode(s, s[d].node.left, l); SameTreeSameNode(s, s[d].node.right, r);
    case Seq(l, r) => SameTreeSameNode(s, s[d].node.left, l); SameTreeSameNode(s, s[d].node.right, r);
    case Count(b, _, _) => SameTreeSameNode(s, s[d].node.body, b);
    case _ =>
  }

  /** The parts of the node have the trees that the parts of e are. */
  ghost predicate NodeFor(s: Store, n: Node, e: Expr)
    requires Acyclic(s)
  {
    match n
    case Or(l, r) => l < |s| && r < |s| && e == OrExpr(TreeOf(s, l), TreeOf(s, r))
    case Seq(l, r) => l < |s| && r < |s| && e == SeqExpr(TreeOf(s, l), TreeOf(s, r))
    case Count(b, min, max) => b < |s| && e == CountExpr(TreeOf(s, b), min, max)
    case _ => false
  }

  /** A node for the parts in s, put into t, which is s itself if s had it. */
  ghost predicate NodeMade(s: Store, t: Store, n: Node, d: nat) {
    && s <= t && Acyclic(t) && d < |t| && t[d].node == n
    && forall e :: 0 <= e < |s| && s[e].node == n ==> t == s
  }

  lemma NodeMadeIsKept(s0: Store, s: Store, t: Store, n: Node, d: nat, e: Expr, hash: Token -> nat)
    requires WellFormed(s) && Acyclic(s) && Unique(s) && Acyclic(s0) && NodeFor(s, n, e) && NodeMade(s, t, n, d)
    requires Holds(s0, e) ==> s == s0
    ensures Kept(s0, t, Some(d), e, hash)
  {
    NodeMadeHasTree(s, t, n, d, e);
    if Holds(s0, e) {
      HeldNode(s, e, n);
    }
  }

  lemma NodeMadeHasTree(s: Store, t: Store, n: Node, d: nat, e: Expr)
    requires Acyclic(s) && NodeFor(s, n, e) && NodeMade(s, t, n, d)
    ensures TreeOf(t, d) == e
  {
    assert PartsBelow(t[d].node, d);
    match n
    case Or(l, r) => TreeStays(s, t, l); TreeStays(s, t, r);
    case Seq(l, r) => TreeStays(s, t, l); TreeStays(s, t, r);
    case Count(b, _, _) => TreeStays(s, t, b);
  }

  /** Two parts read one after the other, the first from s0 to s1 and the second from s1 to s2. */
  lemma BothKept(s0: Store, s1: Store, s2: Store, l: nat, r: nat, a: Expr, b: Expr, e: Expr, hash: Token -> nat)
    requires Acyclic(s0) && Acyclic(s1) && Acyclic(s2) && s1 <= s2 && Normal(e, hash)
    requires e == OrExpr(a, b) || e == SeqExpr(a, b)
    requires Kept(s0, s1, Some(l), a, hash) && Kept(s1, s2, Some(r), b, hash)
    ensures l < |s2| && r < |s2| && TreeOf(s2, l) == a && TreeOf(s2, r) == b
    ensures Holds(s0, e) ==> s2 == s0
  {
    TreeStays(s1, s2, l);
    if Holds(s0, e) {
      PartsHeld(s0, e);
    }
  }

  lemma CountKept(s0: Store, s: Store, t: Store, x: nat, d: nat, b: Expr, min: int, max: int, hash: Token -> nat)
    requires WellFormed(s) && Acyclic(s) && Unique(s) && Acyclic(s0) && Kept(s0, s, Some(x), b, hash)
    requires WellFormedCount(min, max) && !(min == max && min <= 1) ==> NodeMade(s, t, Count(x, min, max), d)
    ensures Kept(s0, t, Some(d), CountExpr(b, min, max), hash)
  {
    var e := CountExpr(b, min, max);
    if Normal(e, hash) {
      if Holds(s0, e) {
        PartsHeld(s0, e);
      }
      NodeMadeIsKept(s0, s, t, Count(x, min, max), d, e, hash);
    }
  }

  lemma NotStatic(s: Store, e: nat, hash: Token -> nat)
    requires WellFormed(s) && Acyclic(s) && e < |s| && Normal(TreeOf(s, e), hash)
    ensures e != FORBIDDEN && e != EMPTY
  {
    assert TreeOf(s, FORBIDDEN) == ForbidExpr && TreeOf(s, EMPTY) == EmptyExpr;
  }

  lemma SeqKept(s0: Store, s1: Store, s: Store, t: Store, l: nat, r: nat, d: nat, a: Expr, b: Expr, hash: Token -> nat)
    requires WellFormed(s) && Acyclic(s) && Unique(s) && Acyclic(s0) && Acyclic(s1) && s1 <= s
    requires Kept(s0, s1, Some(l), a, hash) && Kept(s1, s, Some(r), b, hash)
    requires l < |s| && r < |s| && {l, r} !! {FORBIDDEN, EMPTY} ==> NodeMade(s, t, Seq(l, r), d)
    ensures Kept(s0, t, Some(d), SeqExpr(a, b), hash)
  {
    var e := SeqExpr(a, b);
    if Normal(e, hash) {
      BothKept(s0, s1, s, l, r, a, b, e, hash);
      NotStatic(s, l, hash);
      NotStatic(s, r, hash);
      NodeMadeIsKept(s0, s, t, Seq(l, r), d, e, hash);
    }
  }

  /** A normal alternative needs no reordering. */
  lemma OrKept(s0: Store, s1: Store, s: Store, t: Store, table: seq<seq<nat>>, l: nat, r: nat, fuel: nat,
               d: Option<nat>, a: Expr, b: Expr, hash: Token -> nat)
    requires Intact(s, table, hash) && Unique(s) && Acyclic(s0) && Acyclic(s1) && s1 <= s
    requires Kept(s0, s1, Some(l), a, hash) && Kept(s1, s, Some(r), b, hash)
    requires OrDone(s, t, l, r, fuel, d)
    ensures Kept(s0, t, d, OrExpr(a, b), hash)
  {
    var e := OrExpr(a, b);
    if Normal(e, hash) {
      BothKept(s0, s1, s, l, r, a, b, e, hash);
      NormalIsInPlace(s, table, hash, l, r);
      OrIsMade(s, t, l, r, fuel, d);
      NodeMadeIsKept(s0, s, t, Or(l, r), d.value, e, hash);
    }
  }

  lemma NormalIsInPlace(s: Store, table: seq<seq<nat>>, hash: Token -> nat, l: nat, r: nat)
    requires Intact(s, table, hash) && Unique(s) && l < |s| && r < |s|
    requires Normal(OrExpr(TreeOf(s, l), TreeOf(s, r)), hash)
    ensures InPlace(s, l, r)
  {
    assert !TreeOf(s, l).OrExpr? && !TreeOf(s, l).ForbidExpr? && !TreeOf(s, r).ForbidExpr?;
    TreesInPlace(s, table, hash, l, r);
  }

  lemma OrIsMade(s: Store, t: Store, l: nat, r: nat, fuel: nat, d: Option<nat>)
    requires OrDone(s, t, l, r, fuel, d) && InPlace(s, l, r)
    ensures d.Some? && NodeMade(s, t, Or(l, r), d.value)
  {
  }
}
