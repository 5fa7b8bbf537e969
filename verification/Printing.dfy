/** Expressions as trees, and the serialization of an expression into text. */
module Printing {
  import opened Languages
  import opened Expressions

  datatype Expr =
    | ForbidExpr
    | EmptyExpr
    | AtomExpr(name: Token)
    | OrExpr(left: Expr, right: Expr)
    | SeqExpr(left: Expr, right: Expr)
    | CountExpr(body: Expr, min: int, max: int)

  ghost function Meaning(e: Expr): Language {
    match e
    case ForbidExpr => NOTHING
    case EmptyExpr => EMPTY_WORD
    case AtomExpr(a) => iset{[a]}
    case OrExpr(l, r) => Meaning(l) + Meaning(r)
    case SeqExpr(l, r) => Cat(Meaning(l), Meaning(r))
    case CountExpr(b, min, max) => Rep(Meaning(b), min, max)
  }

  /** The tree below a node of the store. */
  ghost function TreeOf(s: Store, e: nat): Expr
    requires Acyclic(s) && e < |s|
    decreases e
  {
    assert PartsBelow(s[e].node, e);
    match s[e].node
    case Forbid => ForbidExpr
    case Empty => EmptyExpr
    case Atom(a) => AtomExpr(a)
    case Or(l, r) => OrExpr(TreeOf(s, l), TreeOf(s, r))
    case Seq(l, r) => SeqExpr(TreeOf(s, l), TreeOf(s, r))
    case Count(b, min, max) => CountExpr(TreeOf(s, b), min, max)
  }

  lemma {:induction false} TreeMeansTheSame(s: Store, e: nat)
    requires Acyclic(s) && e < |s|
    ensures Meaning(TreeOf(s, e)) == L(s, e)
    decreases e
  {
    assert PartsBelow(s[e].node, e);
    match s[e].node
    case Or(l, r) => TreeMeansTheSame(s, l); TreeMeansTheSame(s, r);
    case Seq(l, r) => TreeMeansTheSame(s, l); TreeMeansTheSame(s, r);
    case Count(b, _, _) => TreeMeansTheSame(s, b);
    case _ =>
  }

  /** Comparing pointers is comparing expressions: two stored nodes of the same tree are one node. */
  lemma {:induction false} SameTreeSameNode(s: Store, d: nat, e: nat)
    requires WellFormed(s) && Acyclic(s) && Unique(s) && d < |s| && e < |s|
    requires TreeOf(s, d) == TreeOf(s, e)
    ensures d == e
    decreases d
  {
    OnlyStatics(s, d);
    OnlyStatics(s, e);
    assert PartsBelow(s[d].node, d) && PartsBelow(s[e].node, e);
    match s[d].node
    case Or(l, r) => SameTreeSameNode(s, l, s[e].node.left); SameTreeSameNode(s, r, s[e].node.right);
    case Seq(l, r) => SameTreeSameNode(s, l, s[e].node.left); SameTreeSameNode(s, r, s[e].node.right);
    case Count(b, _, _) => SameTreeSameNode(s, b, s[e].node.body);
    case _ =>
  }

  ghost predicate CountsWellFormed(e: Expr) {
    match e
    case OrExpr(l, r) => CountsWellFormed(l) && CountsWellFormed(r)
    case SeqExpr(l, r) => CountsWellFormed(l) && CountsWellFormed(r)
    case CountExpr(b, min, max) => CountsWellFormed(b) && WellFormedCount(min, max)
    case _ => true
  }

  lemma {:induction false} StoredCountsWellFormed(s: Store, e: nat)
    requires WellFormed(s) && Acyclic(s) && e < |s|
    ensures CountsWellFormed(TreeOf(s, e))
    decreases e
  {
    assert PartsBelow(s[e].node, e);
    if e >= 2 {
      assert Canonical(s[..e], s[e].node, s[e].nillable);
    }
    match s[e].node
    case Or(l, r) => StoredCountsWellFormed(s, l); StoredCountsWellFormed(s, r);
    case Seq(l, r) => StoredCountsWellFormed(s, l); StoredCountsWellFormed(s, r);
    case Count(b, _, _) => StoredCountsWellFormed(s, b);
    case _ =>
  }

  function Digit(d: nat): char
    requires d < 10
  {
    '0' + d as char
  }

  /** The usual decimal notation. */
  function Decimal(n: nat): string {
    if n < 10 then [Digit(n)] else Decimal(n / 10) + [Digit(n % 10)]
  }

  function Suffix(min: int, max: int): string
    requires WellFormedCount(min, max)
  {
    if min == 0 && max == 1 then "?"
    else if min == 0 && max == -1 then "*"
    else if min == 1 && max == -1 then "+"
    else if max == min then "{" + Decimal(min) + "}"
    else if max < 0 then "{" + Decimal(min) + ",inf}"
    else "{" + Decimal(min) + "," + Decimal(max) + "}"
  }

  predicate Compound(e: Expr) {
    e.SeqExpr? || e.OrExpr?
  }

  function Print(e: Expr): string
    requires CountsWellFormed(e)
    decreases e, 0
  {
    match e
    case EmptyExpr => "empty"
    case ForbidExpr => "forbidden"
    case AtomExpr(a) => a
    case SeqExpr(l, r) => Part(l) + " , " + Part(r)
    case OrExpr(l, r) => Part(l) + " | " + Part(r)
    case CountExpr(b, min, max) => Part(b) + Suffix(min, max)
  }

  /** A part of a larger expression: sequences and alternatives get parentheses. */
  function Part(e: Expr): string
    requires CountsWellFormed(e)
    decreases e, 1
  {
    if Compound(e) then "(" + Print(e) + ")" else Print(e)
  }

  /** What is printed, written out: brackets stand around sequences and alternatives within other expressions. */
  lemma PrintedForms(l: Expr, r: Expr, n: nat, m: nat)
    requires CountsWellFormed(l) && CountsWellFormed(r)
    ensures var p := if l.SeqExpr? || l.OrExpr? then "(" + Print(l) + ")" else Print(l);
            var q := if r.SeqExpr? || r.OrExpr? then "(" + Print(r) + ")" else Print(r);
      && Print(SeqExpr(l, r)) == p + " , " + q && Print(OrExpr(l, r)) == p + " | " + q
      && Print(CountExpr(l, 0, 1)) == p + "?" && Print(CountExpr(l, 0, -1)) == p + "*"
      && Print(CountExpr(l, 1, -1)) == p + "+" && Print(CountExpr(l, n, n)) == p + ("{" + Decimal(n) + "}")
      && (n < m && (n > 0 || m > 1) ==>
            Print(CountExpr(l, n, m)) == p + ("{" + Decimal(n) + "," + Decimal(m) + "}"))
      && (n >= 2 ==> Print(CountExpr(l, n, -1)) == p + ("{" + Decimal(n) + ",inf}"))
  {
    assert CountsWellFormed(CountExpr(l, n, n)) && CountsWellFormed(SeqExpr(l, r));
  }

  /** The printed form of a stored node; all its counts are well formed. */
  ghost function Dumped(s: Store, e: nat): string
    requires WellFormed(s) && Acyclic(s) && e < |s|
  {
    StoredCountsWellFormed(s, e);
    Print(TreeOf(s, e))
  }

  ghost function DumpedPart(s: Store, e: nat): string
    requires WellFormed(s) && Acyclic(s) && e < |s|
  {
    StoredCountsWellFormed(s, e);
    Part(TreeOf(s, e))
  }

  class Buffer {
    var text: string

    constructor ()
      ensures text == ""
    {
      text := "";
    }

    method Write(s: string)
      modifies this
      ensures text == old(text) + s
    {
      text := text + s;
    }
  }

  /** Appends a node to the buffer, within parentheses if glob is set. */
  method DumpInt(s: Store, buf: Buffer, e: nat, glob: bool)
    requires WellFormed(s) && Acyclic(s) && e < |s|
    modifies buf
    ensures buf.text == old(buf.text) + if glob then "(" + Dumped(s, e) + ")" else Dumped(s, e)
    decreases e, 2
  {
    if glob {
      buf.Write("(");
    }
    DumpNode(s, buf, e);
    if glob {
      buf.Write(")");
    }
    assert glob ==> old(buf.text) + "(" + Dumped(s, e) + ")" == old(buf.text) + ("(" + Dumped(s, e) + ")");
  }

  method DumpNode(s: Store, buf: Buffer, e: nat)
    requires WellFormed(s) && Acyclic(s) && e < |s|
    modifies buf
    ensures buf.text == old(buf.text) + Dumped(s, e)
    decreases e, 1
  {
    assert PartsBelow(s[e].node, e);
    StoredCountsWellFormed(s, e);
    match s[e].node
    case Empty => buf.Write("empty");
    case Forbid => buf.Write("forbidden");
    case Atom(name) => buf.Write(name);
    case Seq(left, right) =>
      DumpPair(s, buf, left, " , ", right, e);
    case Or(left, right) =>
      DumpPair(s, buf, left, " | ", right, e);
    case Count(left, min, max) =>
      DumpInt(s, buf, left, s[left].node.Seq? || s[left].node.Or?);
      ghost var body := buf.text;
      var rep;
      if min == 0 && max == 1 {
        rep := "?";
      } else if min == 0 && max == -1 {
        rep := "*";
      } else if min == 1 && max == -1 {
        rep := "+";
      } else if max == min {
        rep := "{" + Decimal(min) + "}";
      } else if max < 0 {
        rep := "{" + Decimal(min) + ",inf}";
      } else {
        rep := "{" + Decimal(min) + "," + Decimal(max) + "}";
      }
      buf.Write(rep);
      Appended(old(buf.text), DumpedPart(s, left), Suffix(min, max));
  }

  method DumpPair(s: Store, buf: Buffer, left: nat, separator: string, right: nat, ghost e: nat)
    requires WellFormed(s) && Acyclic(s) && left < |s| && right < |s| && left < e && right < e
    modifies buf
    ensures buf.text == old(buf.text) + (DumpedPart(s, left) + separator + DumpedPart(s, right))
    decreases e, 0
  {
    DumpInt(s, buf, left, s[left].node.Seq? || s[left].node.Or?);
    buf.Write(separator);
    DumpInt(s, buf, right, s[right].node.Seq? || s[right].node.Or?);
    Appended(old(buf.text), DumpedPart(s, left), separator);
    Appended(old(buf.text), DumpedPart(s, left) + separator, DumpedPart(s, right));
  }

  lemma Appended(a: string, b: string, c: string)
    ensures a + b + c == a + (b + c)
  {
  }
}
