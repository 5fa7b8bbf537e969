/** The expression parser: a cursor over the text, building nodes as it goes. */
module ExprParsers {
  import opened Results
  import opened Languages
  import opened Expressions
  import opened Alternatives
  import opened ExpContexts
  import opened Printing
  import opened Parsing
  import opened RoundTrip
  import opened StoredTrees
  import Grammar

  /**
   * NullNode is a refused text. OutOfFuel: reordering an alternative did not end in time. Undefined: the
   * parser went on with a null part, or with a count whose maximum is below its minimum.
   */
  datatype Outcome = Built(id: nat) | NullNode | OutOfFuel | Undefined

  ghost predicate Denotes(s: Store, id: nat, e: Expr) {
    Acyclic(s) && id < |s| && L(s, id) == Meaning(e)
  }

  /** The outcome is the one that the text calls for. */
  ghost predicate Agrees(r: Outcome, cur: nat, s: Store, p: Parsed) {
    match r
    case OutOfFuel => true
    case Built(id) => p.Read? && cur == p.next && Denotes(s, id, p.expr)
    case NullNode => p.Null? && cur == p.next
    case Undefined => p.Outside?
  }

  ghost predicate Matches(r: Outcome, s: Store, e: Option<Expr>) {
    match r
    case Built(id) => e.Some? && Denotes(s, id, e.value)
    case NullNode => e.None?
    case _ => false
  }

  function NodeOf(r: Outcome): Option<nat> {
    if r.Built? then Some(r.id) else None
  }

  lemma WrittenIsParsed(text: string)
    ensures forall f :: Grammar.Valid(f) && Grammar.Write(f) == text ==> ReadText(text) == Read(Grammar.Tree(f), |text|)
  {
    forall f | Grammar.Valid(f) && Grammar.Write(f) == text
      ensures ReadText(text) == Read(Grammar.Tree(f), |text|)
    {
      Grammar.WrittenIsRead(f);
    }
  }

  lemma DenotesStays(s: Store, t: Store, id: nat, e: Expr)
    requires Denotes(s, id, e) && Acyclic(t) && s <= t
    ensures Denotes(t, id, e)
  {
    LanguageStays(s, t, id);
  }

  class ExprParser {
    const text: string
    const ctxt: ExpContext
    var cur: nat

    ghost predicate Valid()
      reads this, ctxt
    {
      ctxt.Valid() && cur <= |text|
    }

    /** A tree read since the store was s0: a normal one was built as it stands. */
    ghost predicate Since(s0: Store, base: Outcome, e: Option<Expr>)
      reads this, ctxt
    {
      Acyclic(s0) && (e.Some? ==> Kept(s0, ctxt.store, NodeOf(base), e.value, ctxt.hash))
    }

    constructor (ctxt: ExpContext, text: string)
      requires ctxt.Valid()
      ensures Valid() && this.ctxt == ctxt && this.text == text && cur == 0
    {
      this.ctxt := ctxt;
      this.text := text;
      cur := 0;
    }

    method SkipBlanks()
      requires cur <= |text|
      modifies this`cur
      ensures cur == Skip(text, old(cur))
    {
      while IsBlank(Cur(text, cur))
        invariant old(cur) <= cur <= |text| && Skip(text, cur) == Skip(text, old(cur))
        decreases |text| - cur
      {
        cur := cur + 1;
      }
    }

    method ParseNumber() returns (ret: int)
      requires cur <= |text|
      modifies this`cur
      ensures (ret, cur) == ReadNumber(text, old(cur))
    {
      SkipBlanks();
      if Cur(text, cur) == '*' {
        cur := cur + 1;
        return -1;
      }
      if !IsDigit(Cur(text, cur)) {
        return -1;
      }
      ret := 0;
      while IsDigit(Cur(text, cur))
        invariant Skip(text, old(cur)) <= cur <= |text| && ret >= 0
        invariant ReadDigits(text, cur, ret) == ReadDigits(text, Skip(text, old(cur)), 0)
        decreases |text| - cur
      {
        ret := ret * 10 + (Cur(text, cur) as int - '0' as int);
        cur := cur + 1;
      }
    }

    /** Applies a count and skips the blanks after it; the quantifier itself has been read. */
    method Count(base: Outcome, min: nat, max: int, ghost e: Option<Expr>, ghost s0: Store) returns (r: Outcome)
      requires Valid() && Matches(base, ctxt.store, e) && max >= -1 && Since(s0, base, e)
      modifies this`cur, ctxt
      ensures Valid() && old(ctxt.store) <= ctxt.store && !r.OutOfFuel?
      ensures Agrees(r, cur, ctxt.store, Counted(e, min, max, Skip(text, old(cur))))
      ensures KeptIfRead(s0, ctxt.store, NodeOf(r), Counted(e, min, max, Skip(text, old(cur))), ctxt.hash)
    {
      SkipBlanks();
      if base.Built? {
        if 0 <= max < min {
          return Undefined;
        }
        ghost var s := ctxt.store;
        var id := ctxt.GetCount(base.id, min, max);
        CountKept(s0, s, ctxt.store, base.id, id, e.value, min, max, ctxt.hash);
        r := Built(id);
      } else if min == 1 && max == 1 {
        r := NullNode;
      } else if min == 0 && max == 0 {
        r := Built(EMPTY);
      } else {
        r := Undefined;
      }
    }

    method ParseBraces(base: Outcome, ghost e: Option<Expr>, ghost s0: Store) returns (r: Outcome)
      requires Valid() && Matches(base, ctxt.store, e) && Cur(text, cur) == '{' && Since(s0, base, e)
      modifies this`cur, ctxt
      ensures Valid() && old(ctxt.store) <= ctxt.store && !r.OutOfFuel?
      ensures Agrees(r, cur, ctxt.store, ReadQuantifier(text, old(cur), e))
      ensures KeptIfRead(s0, ctxt.store, NodeOf(r), ReadQuantifier(text, old(cur), e), ctxt.hash)
    {
      cur := cur + 1;
      var min := ParseNumber();
      if min < 0 {
        return NullNode;
      }
      var max := ParseMax(min);
      r := CloseBrace(base, min, max, e, s0);
    }

    method ParseMax(min: nat) returns (max: int)
      requires cur <= |text|
      modifies this`cur
      ensures cur == Skip(text, ReadMax(text, Skip(text, old(cur)), min).1)
      ensures max == ReadMax(text, Skip(text, old(cur)), min).0
    {
      SkipBlanks();
      max := min;
      if Cur(text, cur) == ',' {
        cur := cur + 1;
        max := ParseNumber();
        SkipBlanks();
      }
    }

    method CloseBrace(base: Outcome, min: nat, max: int, ghost e: Option<Expr>, ghost s0: Store) returns (r: Outcome)
      requires Valid() && Matches(base, ctxt.store, e) && max >= -1 && Since(s0, base, e)
      modifies this`cur, ctxt
      ensures Valid() && old(ctxt.store) <= ctxt.store && !r.OutOfFuel?
      ensures Agrees(r, cur, ctxt.store, ReadBrace(text, old(cur), e, min, max))
      ensures KeptIfRead(s0, ctxt.store, NodeOf(r), ReadBrace(text, old(cur), e, min, max), ctxt.hash)
    {
      if Cur(text, cur) != '}' {
        return NullNode;
      }
      cur := cur + 1;
      r := Count(base, min, max, e, s0);
    }

    method ParseQuantifier(base: Outcome, ghost e: Option<Expr>, ghost s0: Store) returns (r: Outcome)
      requires Valid() && Matches(base, ctxt.store, e) && Since(s0, base, e)
      modifies this`cur, ctxt
      ensures Valid() && old(ctxt.store) <= ctxt.store && !r.OutOfFuel?
      ensures Agrees(r, cur, ctxt.store, ReadQuantifier(text, old(cur), e))
      ensures KeptIfRead(s0, ctxt.store, NodeOf(r), ReadQuantifier(text, old(cur), e), ctxt.hash)
    {
      if Cur(text, cur) == '{' {
        r := ParseBraces(base, e, s0);
      } else if Cur(text, cur) == '?' {
        cur := cur + 1;
        r := Count(base, 0, 1, e, s0);
      } else if Cur(text, cur) == '+' {
        cur := cur + 1;
        r := Count(base, 1, -1, e, s0);
      } else if Cur(text, cur) == '*' {
        cur := cur + 1;
        r := Count(base, 0, -1, e, s0);
      } else {
        r := base;
      }
    }

    method ParseName() returns (r: Outcome, ghost e: Expr)
      requires Valid()
      modifies this`cur, ctxt
      ensures Valid() && old(ctxt.store) <= ctxt.store
      ensures cur == NameEnd(text, old(cur)) && e == AtomExpr(text[old(cur)..cur]) && Matches(r, ctxt.store, Some(e))
      ensures Kept(old(ctxt.store), ctxt.store, NodeOf(r), e, ctxt.hash)
    {
      var base := cur;
      while !IsDelimiter(Cur(text, cur))
        invariant base <= cur <= |text| && NameEnd(text, cur) == NameEnd(text, base)
        decreases |text| - cur
        modifies this`cur
      {
        cur := cur + 1;
      }
      var val := text[base..cur];
      var id := ctxt.GetAtom(val);
      r, e := Built(id), AtomExpr(val);
    }

    /** An atom or an expression within parentheses; refused if the brackets do not match. */
    method ParsePrimary(fuel: nat) returns (ret: Outcome, refused: bool)
      requires Valid()
      modifies this`cur, ctxt
      ensures Valid() && old(ctxt.store) <= ctxt.store
      ensures ret.OutOfFuel? ==> '|' in text
      ensures var p := ReadPrimary(text, old(cur));
        if ret.OutOfFuel? then true
        else if ret.Undefined? then p.Failed?
        else if refused then ret.NullNode? && p.Refused? && cur == p.next
        else p.Found? && cur == p.next && Matches(ret, ctxt.store, p.expr)
      ensures var p := ReadPrimary(text, old(cur));
        p.Found? && p.expr.Some? ==> Kept(old(ctxt.store), ctxt.store, NodeOf(ret), p.expr.value, ctxt.hash)
      decreases |text| - cur, 0
    {
      refused := false;
      SkipBlanks();
      if Cur(text, cur) == '(' {
        cur := cur + 1;
        ret := ParseExpr(fuel);
        if ret.OutOfFuel? || ret.Undefined? {
          return;
        }
        SkipBlanks();
        if Cur(text, cur) != ')' {
          return NullNode, true;
        }
        cur := cur + 1;
      } else {
        ghost var atom;
        ret, atom := ParseName();
      }
      SkipBlanks();
    }

    method ParseOr(fuel: nat) returns (r: Outcome)
      requires Valid()
      modifies this`cur, ctxt
      ensures Valid() && old(ctxt.store) <= ctxt.store
      ensures r.OutOfFuel? ==> '|' in text
      ensures Agrees(r, cur, ctxt.store, ReadOr(text, old(cur)))
      ensures KeptIfRead(old(ctxt.store), ctxt.store, NodeOf(r), ReadOr(text, old(cur)), ctxt.hash)
      decreases |text| - cur, 1
    {
      ghost var primary := ReadPrimary(text, cur);
      var ret, refused := ParsePrimary(fuel);
      if ret.OutOfFuel? || ret.Undefined? || refused {
        if primary.Found? {
          QuantifierNotNormal(text, primary.next, primary.expr, ctxt.hash);
        }
        return ret;
      }
      r := ParseQuantifier(ret, primary.expr, old(ctxt.store));
    }

    method ParseSeq(fuel: nat) returns (r: Outcome)
      requires Valid()
      modifies this`cur, ctxt
      ensures Valid() && old(ctxt.store) <= ctxt.store
      ensures r.OutOfFuel? ==> '|' in text
      ensures Agrees(r, cur, ctxt.store, ReadSeq(text, old(cur)))
      ensures KeptIfRead(old(ctxt.store), ctxt.store, NodeOf(r), ReadSeq(text, old(cur)), ctxt.hash)
      decreases |text| - cur, 3
    {
      ghost var first := ReadOr(text, cur);
      r := ParseOr(fuel);
      if r.OutOfFuel? || r.Undefined? {
        if !first.Outside? {
          MoreOrNotNormal(text, Skip(text, first.next), Expression(first), ctxt.hash);
        }
        return;
      }
      ghost var e := Expression(first);
      SkipBlanks();
      while Cur(text, cur) == '|'
        invariant (r.OutOfFuel? ==> '|' in text) && Valid() && old(ctxt.store) <= ctxt.store && old(cur) <= cur
        invariant Since(old(ctxt.store), r, e)
        invariant Matches(r, ctxt.store, e) && ReadSeq(text, old(cur)) == MoreOr(text, cur, e)
        decreases |text| - cur
      {
        r, e := OneMoreOr(r, e, fuel, old(ctxt.store));
        if !r.Built? {
          return;
        }
      }
    }

    /** One | and the part after it. */
    method OneMoreOr(left: Outcome, ghost e: Option<Expr>, fuel: nat, ghost s0: Store)
      returns (r: Outcome, ghost both: Option<Expr>)
      requires Valid() && Cur(text, cur) == '|' && Matches(left, ctxt.store, e) && Since(s0, left, e)
      modifies this`cur, ctxt
      ensures Valid() && old(ctxt.store) <= ctxt.store
      ensures r.OutOfFuel? ==> '|' in text
      ensures r.Built? ==>
        old(cur) < cur && Matches(r, ctxt.store, both) && MoreOr(text, old(cur), e) == MoreOr(text, cur, both)
      ensures !r.Built? ==> Agrees(r, cur, ctxt.store, MoreOr(text, old(cur), e))
      ensures r.Built? ==> Since(s0, r, both)
      ensures !r.Built? ==> KeptIfRead(s0, ctxt.store, None, MoreOr(text, old(cur), e), ctxt.hash)
      decreases |text| - cur, 2
    {
      both := None;
      ghost var s := ctxt.store;
      cur := cur + 1;
      var right := ParseOr(fuel);
      if !right.Built? {
        OrStops(text, old(cur), e, ctxt.hash);
        return right, None;
      }
      if left.NullNode? {
        return Undefined, None;
      }
      ghost var found := ReadOr(text, old(cur) + 1).expr;
      r := MakeOr(left.id, right.id, e.value, found, fuel, s0, s);
      if r.OutOfFuel? {
        MoreOrNotNormal(text, cur, Some(OrExpr(e.value, found)), ctxt.hash);
        return;
      }
      both := Some(OrExpr(e.value, found));
    }

    /** The node for two parts read one after the other, the first from s0 to s1, the second since then. */
    method MakeOr(left: nat, right: nat, ghost a: Expr, ghost b: Expr, fuel: nat, ghost s0: Store, ghost s1: Store)
      returns (r: Outcome)
      requires Valid() && PartsRead(s0, s1, left, right, a, b)
      modifies ctxt
      ensures Valid() && old(ctxt.store) <= ctxt.store
      ensures r.OutOfFuel? || (r.Built? && Denotes(ctxt.store, r.id, OrExpr(a, b)))
      ensures Kept(s0, ctxt.store, NodeOf(r), OrExpr(a, b), ctxt.hash)
    {
      ghost var s, table := ctxt.store, ctxt.table;
      DenotesStays(s1, s, left, a);
      var id := ctxt.GetOr(left, right, fuel);
      OrKept(s0, s1, s, ctxt.store, table, left, right, fuel, id, a, b, ctxt.hash);
      r := if id == None then OutOfFuel else Built(id.value);
    }

    ghost predicate PartsRead(s0: Store, s1: Store, left: nat, right: nat, a: Expr, b: Expr)
      reads this, ctxt
    {
      && Acyclic(s0) && s1 <= ctxt.store && Denotes(s1, left, a) && Denotes(ctxt.store, right, b)
      && Kept(s0, s1, Some(left), a, ctxt.hash) && Kept(s1, ctxt.store, Some(right), b, ctxt.hash)
    }

    method ParseExpr(fuel: nat) returns (r: Outcome)
      requires Valid()
      modifies this`cur, ctxt
      ensures Valid() && old(ctxt.store) <= ctxt.store
      ensures r.OutOfFuel? ==> '|' in text
      ensures Agrees(r, cur, ctxt.store, ReadExpr(text, old(cur)))
      ensures KeptIfRead(old(ctxt.store), ctxt.store, NodeOf(r), ReadExpr(text, old(cur)), ctxt.hash)
      decreases |text| - cur, 5
    {
      ghost var first := ReadSeq(text, cur);
      r := ParseSeq(fuel);
      if r.OutOfFuel? || r.Undefined? {
        if !first.Outside? {
          MoreSeqNotNormal(text, Skip(text, first.next), Expression(first), ctxt.hash);
        }
        return;
      }
      ghost var e := Expression(first);
      SkipBlanks();
      while Cur(text, cur) == ','
        invariant (r.OutOfFuel? ==> '|' in text) && Valid() && old(ctxt.store) <= ctxt.store && old(cur) <= cur
        invariant Since(old(ctxt.store), r, e)
        invariant Matches(r, ctxt.store, e) && ReadExpr(text, old(cur)) == MoreSeq(text, cur, e)
        decreases |text| - cur
      {
        r, e := OneMoreSeq(r, e, fuel, old(ctxt.store));
        if !r.Built? {
          return;
        }
      }
    }

    /** One comma and the part after it. */
    method OneMoreSeq(left: Outcome, ghost e: Option<Expr>, fuel: nat, ghost s0: Store)
      returns (r: Outcome, ghost both: Option<Expr>)
      requires Valid() && Cur(text, cur) == ',' && Matches(left, ctxt.store, e) && Since(s0, left, e)
      modifies this`cur, ctxt
      ensures Valid() && old(ctxt.store) <= ctxt.store
      ensures r.OutOfFuel? ==> '|' in text
      ensures r.Built? ==>
        old(cur) < cur && Matches(r, ctxt.store, both) && MoreSeq(text, old(cur), e) == MoreSeq(text, cur, both)
      ensures !r.Built? ==> Agrees(r, cur, ctxt.store, MoreSeq(text, old(cur), e))
      ensures r.Built? ==> Since(s0, r, both)
      ensures !r.Built? ==> KeptIfRead(s0, ctxt.store, None, MoreSeq(text, old(cur), e), ctxt.hash)
      decreases |text| - cur, 4
    {
      both := None;
      ghost var s := ctxt.store;
      cur := cur + 1;
      var right := ParseSeq(fuel);
      if !right.Built? {
        SeqStops(text, old(cur), e, ctxt.hash);
        return right, None;
      }
      if left.NullNode? {
        return Undefined, None;
      }
      ghost var found := ReadSeq(text, old(cur) + 1).expr;
      r := MakeSeq(left.id, right.id, e.value, found, s0, s);
      both := Some(SeqExpr(e.value, found));
    }

    method MakeSeq(left: nat, right: nat, ghost a: Expr, ghost b: Expr, ghost s0: Store, ghost s1: Store)
      returns (r: Outcome)
      requires Valid() && PartsRead(s0, s1, left, right, a, b)
      modifies ctxt
      ensures Valid() && old(ctxt.store) <= ctxt.store
      ensures r.Built? && Denotes(ctxt.store, r.id, SeqExpr(a, b))
      ensures Kept(s0, ctxt.store, NodeOf(r), SeqExpr(a, b), ctxt.hash)
    {
      ghost var s := ctxt.store;
      DenotesStays(s1, s, left, a);
      var id := ctxt.GetSeq(left, right);
      SeqKept(s0, s1, s, ctxt.store, left, right, id, a, b, ctxt.hash);
      r := Built(id);
    }

    method Parse(fuel: nat) returns (r: Outcome)
      requires Valid() && cur == 0
      modifies this`cur, ctxt
      ensures Valid() && old(ctxt.store) <= ctxt.store
      ensures r.OutOfFuel? ==> '|' in text
      ensures Agrees(r, cur, ctxt.store, ReadText(text))
      ensures KeptIfRead(old(ctxt.store), ctxt.store, NodeOf(r), ReadText(text), ctxt.hash)
      ensures forall f :: Grammar.Valid(f) && Grammar.Write(f) == text ==>
        r.OutOfFuel? || (r.Built? && cur == |text| && Denotes(ctxt.store, r.id, Grammar.Tree(f)))
    {
      WrittenIsParsed(text);
      r := ParseExpr(fuel);
      if r.OutOfFuel? || r.Undefined? {
        return;
      }
      SkipBlanks();
      if Cur(text, cur) != '\0' {
        r := NullNode;
      }
    }
  }

  /**
   * Reading the dump of a stored node with clean names, without static nodes, without a count on a count and
   * without {n,inf}, in any context with the same hash: the node has the very same tree, and all text is
   * used up. In the context of the node itself it is that node, and nothing is added.
   */
  lemma DumpIsReadBack(s: Store, table: seq<seq<nat>>, hash: Token -> nat, e: nat, t0: Store, t: Store, r: Outcome,
                       cur: nat)
    requires Intact(s, table, hash) && Unique(s) && e < |s| && Acyclic(t0)
    requires CleanNames(TreeOf(s, e)) && NoStatics(TreeOf(s, e)) && CountsPrint(TreeOf(s, e))
    requires Agrees(r, cur, t, ReadText(Dumped(s, e))) && KeptIfRead(t0, t, NodeOf(r), ReadText(Dumped(s, e)), hash)
    ensures r.Built? && Acyclic(t) && r.id < |t| && TreeOf(t, r.id) == TreeOf(s, e) && cur == |Dumped(s, e)|
    ensures t0 == s ==> t == s && r == Built(e)
  {
    StoredCountsWellFormed(s, e);
    RoundTrips(TreeOf(s, e));
    StoredIsNormal(s, table, hash, e);
    if t0 == s {
      assert Holds(s, TreeOf(s, e));
      SameTreeSameNode(s, e, r.id);
    }
  }

  /** The node of a dumped expression, by way of its text. */
  method DumpAndParse(from: ExpContext, e: nat, to: ExpContext, fuel: nat) returns (r: Outcome)
    requires from.Valid() && to.Valid() && from.hash == to.hash && e < |from.store|
    requires CleanNames(TreeOf(from.store, e)) && NoStatics(TreeOf(from.store, e)) && CountsPrint(TreeOf(from.store, e))
    modifies to
    ensures to.Valid() && old(to.store) <= to.store
    ensures r.Built? && r.id < |to.store| && TreeOf(to.store, r.id) == old(TreeOf(from.store, e))
    ensures from == to ==> r == Built(e) && to.store == old(to.store)
  {
    ghost var s, table := from.store, from.table;
    var buf := new Buffer();
    DumpInt(from.store, buf, e, false);
    assert buf.text == Dumped(s, e);
    var parser := new ExprParser(to, buf.text);
    ghost var t0 := to.store;
    r := parser.Parse(fuel);
    DumpIsReadBack(s, table, from.hash, e, t0, to.store, r, parser.cur);
  }

  /** With any other hash the node means the same, unless the reordering does not end. */
  lemma DumpMeansTheSame(s: Store, e: nat, t: Store, r: Outcome, cur: nat)
    requires WellFormed(s) && Acyclic(s) && e < |s|
    requires CleanNames(TreeOf(s, e)) && NoStatics(TreeOf(s, e)) && CountsPrint(TreeOf(s, e))
    requires Agrees(r, cur, t, ReadText(Dumped(s, e)))
    ensures r.OutOfFuel? || (r.Built? && Acyclic(t) && r.id < |t| && L(t, r.id) == L(s, e) && cur == |Dumped(s, e)|)
  {
    StoredCountsWellFormed(s, e);
    RoundTrips(TreeOf(s, e));
    TreeMeansTheSame(s, e);
  }
}
