/** What the expression parser reads, and that it reads back what is printed. */
module Parsing {
  import opened Results
  import opened Printing

  /** The character under the cursor; texts end with a NUL. */
  function Cur(text: string, pos: nat): char {
    if pos < |text| then text[pos] else '\0'
  }

  predicate IsBlank(c: char) {
    c == ' ' || c == '\n' || c == '\r' || c == '\t'
  }

  predicate IsDigit(c: char) {
    '0' <= c <= '9'
  }

  /** The characters that end an atom. */
  predicate IsDelimiter(c: char) {
    || IsBlank(c) || c == '\0' || c == '(' || c == ')' || c == '|' || c == ','
    || c == '{' || c == '*' || c == '+' || c == '?' || c == '}'
  }

  function Skip(text: string, pos: nat): (r: nat)
    requires pos <= |text|
    ensures pos <= r <= |text| && !IsBlank(Cur(text, r))
    decreases |text| - pos
  {
    if IsBlank(Cur(text, pos)) then Skip(text, pos + 1) else pos
  }

  function NameEnd(text: string, pos: nat): (r: nat)
    requires pos <= |text|
    ensures pos <= r <= |text|
    decreases |text| - pos
  {
    if IsDelimiter(Cur(text, pos)) then pos else NameEnd(text, pos + 1)
  }

  predicate CleanName(a: string) {
    forall i :: 0 <= i < |a| ==> !IsDelimiter(a[i])
  }

  /** No name contains a delimiter. */
  predicate CleanNames(e: Expr) {
    match e
    case AtomExpr(a) => CleanName(a)
    case OrExpr(l, r) => CleanNames(l) && CleanNames(r)
    case SeqExpr(l, r) => CleanNames(l) && CleanNames(r)
    case CountExpr(b, _, _) => CleanNames(b)
    case _ => true
  }

  function ReadDigits(text: string, pos: nat, value: nat): (r: (nat, nat))
    requires pos <= |text|
    ensures pos <= r.1 <= |text|
    decreases |text| - pos
  {
    var c := Cur(text, pos);
    if IsDigit(c) then ReadDigits(text, pos + 1, value * 10 + (c as int - '0' as int)) else (value, pos)
  }

  /** The number at pos and the position after it; -1 stands for an asterisk and for no number at all. */
  function ReadNumber(text: string, pos: nat): (r: (int, nat))
    requires pos <= |text|
    ensures pos <= r.1 <= |text| && r.0 >= -1
  {
    var p := Skip(text, pos);
    if Cur(text, p) == '*' then (-1, p + 1)
    else if !IsDigit(Cur(text, p)) then (-1, p)
    else ReadDigits(text, p, 0)
  }

  /**
   * Null is a refused text. Outside: the parser has built {min,max} with max below min, or has used the
   * null result of a refused part as an expression.
   */
  datatype Parsed = Read(expr: Expr, next: nat) | Null(next: nat) | Outside

  /** Reading moves the cursor forward within the text. */
  predicate Within(r: Parsed, text: string, pos: nat) {
    r.Outside? || pos <= r.next <= |text|
  }

  function Expression(r: Parsed): Option<Expr> {
    if r.Read? then Some(r.expr) else None
  }

  function Counted(e: Option<Expr>, min: nat, max: int, next: nat): Parsed {
    match e
    case Some(b) => if 0 <= max < min then Outside else Read(CountExpr(b, min, max), next)
    case None =>
      if min == 1 && max == 1 then Null(next) else if min == 0 && max == 0 then Read(EmptyExpr, next) else Outside
  }

  function ReadQuantifier(text: string, pos: nat, e: Option<Expr>): (r: Parsed)
    requires pos <= |text|
    ensures Within(r, text, pos)
  {
    if Cur(text, pos) == '{' then
      var (min, p) := ReadNumber(text, pos + 1);
      if min < 0 then
        Null(p)
      else
        var (max, z) := ReadMax(text, Skip(text, p), min);
        ReadBrace(text, Skip(text, z), e, min, max)
    else if Cur(text, pos) == '?' then Counted(e, 0, 1, Skip(text, pos + 1))
    else if Cur(text, pos) == '+' then Counted(e, 1, -1, Skip(text, pos + 1))
    else if Cur(text, pos) == '*' then Counted(e, 0, -1, Skip(text, pos + 1))
    else if e.Some? then Read(e.value, pos)
    else Null(pos)
  }

  /** The maximum of a count, which is its minimum where only one number is given. */
  function ReadMax(text: string, pos: nat, min: nat): (r: (int, nat))
    requires pos <= |text|
    ensures r.0 >= -1 && pos <= r.1 <= |text|
  {
    if Cur(text, pos) == ',' then ReadNumber(text, pos + 1) else (min, pos)
  }

  function ReadBrace(text: string, pos: nat, e: Option<Expr>, min: nat, max: int): (r: Parsed)
    requires pos <= |text| && max >= -1
    ensures Within(r, text, pos)
  {
    if Cur(text, pos) != '}' then Null(pos) else Counted(e, min, max, Skip(text, pos + 1))
  }

  /** What stands before a quantifier; a refused part may still be given one if its brackets match. */
  datatype Primary = Found(expr: Option<Expr>, next: nat) | Refused(next: nat) | Failed

  /** An atom or an expression within parentheses. */
  function ReadPrimary(text: string, pos: nat): (r: Primary)
    requires pos <= |text|
    ensures r.Failed? || pos <= r.next <= |text|
    decreases |text| - pos, 0
  {
    var p := Skip(text, pos);
    if Cur(text, p) == '(' then
      var inner := ReadExpr(text, p + 1);
      if inner.Outside? then
        Failed
      else
        var q := Skip(text, inner.next);
        if Cur(text, q) != ')' then Refused(q) else Found(Expression(inner), Skip(text, q + 1))
    else
      var q := NameEnd(text, p);
      Found(Some(AtomExpr(text[p..q])), Skip(text, q))
  }

  /** A primary with its quantifier. */
  function ReadOr(text: string, pos: nat): (r: Parsed)
    requires pos <= |text|
    ensures Within(r, text, pos)
    decreases |text| - pos, 1
  {
    match ReadPrimary(text, pos)
    case Failed => Outside
    case Refused(n) => Null(n)
    case Found(e, n) => ReadQuantifier(text, n, e)
  }

  function ReadSeq(text: string, pos: nat): (r: Parsed)
    requires pos <= |text|
    ensures Within(r, text, pos)
    decreases |text| - pos, 3
  {
    var first := ReadOr(text, pos);
    if first.Outside? then Outside else MoreOr(text, Skip(text, first.next), Expression(first))
  }

  function MoreOr(text: string, pos: nat, left: Option<Expr>): (r: Parsed)
    requires pos <= |text|
    ensures Within(r, text, pos)
    decreases |text| - pos, 2
  {
    if Cur(text, pos) != '|' then
      if left.Some? then Read(left.value, pos) else Null(pos)
    else
      var right := ReadOr(text, pos + 1);
      if !right.Read? then right
      else if left.None? then Outside
      else MoreOr(text, right.next, Some(OrExpr(left.value, right.expr)))
  }

  function ReadExpr(text: string, pos: nat): (r: Parsed)
    requires pos <= |text|
    ensures Within(r, text, pos)
    decreases |text| - pos, 5
  {
    var first := ReadSeq(text, pos);
    if first.Outside? then Outside else MoreSeq(text, Skip(text, first.next), Expression(first))
  }

  function MoreSeq(text: string, pos: nat, left: Option<Expr>): (r: Parsed)
    requires pos <= |text|
    ensures Within(r, text, pos)
    decreases |text| - pos, 4
  {
    if Cur(text, pos) != ',' then
      if left.Some? then Read(left.value, pos) else Null(pos)
    else
      var right := ReadSeq(text, pos + 1);
      if !right.Read? then right
      else if left.None? then Outside
      else MoreSeq(text, right.next, Some(SeqExpr(left.value, right.expr)))
  }

  /** The whole text must be used up. */
  function ReadText(text: string): (r: Parsed)
    ensures Within(r, text, 0)
  {
    var r := ReadExpr(text, 0);
    if r.Outside? then
      Outside
    else
      var p := Skip(text, r.next);
      if Cur(text, p) != '\0' then Null(p) else if r.Read? then Read(r.expr, p) else Null(p)
  }

  ghost predicate CleanResult(r: Parsed) {
    r.Read? ==> CleanNames(r.expr)
  }

  ghost predicate CleanOption(e: Option<Expr>) {
    e.Some? ==> CleanNames(e.value)
  }

  lemma {:induction false} NameIsClean(text: string, pos: nat)
    requires pos <= |text|
    ensures CleanName(text[pos..NameEnd(text, pos)])
    decreases |text| - pos
  {
    if !IsDelimiter(Cur(text, pos)) {
      NameIsClean(text, pos + 1);
      var r := NameEnd(text, pos);
      assert text[pos..r] == [text[pos]] + text[pos + 1..r];
    }
  }

  lemma QuantifierReadsClean(text: string, pos: nat, e: Option<Expr>)
    requires pos <= |text| && CleanOption(e)
    ensures CleanResult(ReadQuantifier(text, pos, e))
  {
  }

  /** No name with a delimiter is ever read. */
  lemma {:induction false} PrimaryReadsClean(text: string, pos: nat)
    requires pos <= |text|
    ensures ReadPrimary(text, pos).Found? ==> CleanOption(ReadPrimary(text, pos).expr)
    decreases |text| - pos, 0
  {
    var p := Skip(text, pos);
    if Cur(text, p) == '(' {
      ExprReadsClean(text, p + 1);
    } else {
      NameIsClean(text, p);
    }
  }

  lemma {:induction false} OrReadsClean(text: string, pos: nat)
    requires pos <= |text|
    ensures CleanResult(ReadOr(text, pos))
    decreases |text| - pos, 1
  {
    PrimaryReadsClean(text, pos);
    var primary := ReadPrimary(text, pos);
    if primary.Found? {
      QuantifierReadsClean(text, primary.next, primary.expr);
    }
  }

  lemma {:induction false} SeqReadsClean(text: string, pos: nat)
    requires pos <= |text|
    ensures CleanResult(ReadSeq(text, pos))
    decreases |text| - pos, 3
  {
    OrReadsClean(text, pos);
    var first := ReadOr(text, pos);
    if !first.Outside? {
      MoreOrReadsClean(text, Skip(text, first.next), Expression(first));
    }
  }

  lemma {:induction false} MoreOrReadsClean(text: string, pos: nat, left: Option<Expr>)
    requires pos <= |text| && CleanOption(left)
    ensures CleanResult(MoreOr(text, pos, left))
    decreases |text| - pos, 2
  {
    if Cur(text, pos) == '|' {
      OrReadsClean(text, pos + 1);
      var right := ReadOr(text, pos + 1);
      if right.Read? && left.Some? {
        MoreOrReadsClean(text, right.next, Some(OrExpr(left.value, right.expr)));
      }
    }
  }

  lemma {:induction false} ExprReadsClean(text: string, pos: nat)
    requires pos <= |text|
    ensures CleanResult(ReadExpr(text, pos))
    decreases |text| - pos, 5
  {
    SeqReadsClean(text, pos);
    var first := ReadSeq(text, pos);
    if !first.Outside? {
      MoreSeqReadsClean(text, Skip(text, first.next), Expression(first));
    }
  }

  lemma {:induction false} MoreSeqReadsClean(text: string, pos: nat, left: Option<Expr>)
    requires pos <= |text| && CleanOption(left)
    ensures CleanResult(MoreSeq(text, pos, left))
    decreases |text| - pos, 4
  {
    if Cur(text, pos) == ',' {
      SeqReadsClean(text, pos + 1);
      var right := ReadSeq(text, pos + 1);
      if right.Read? && left.Some? {
        MoreSeqReadsClean(text, right.next, Some(SeqExpr(left.value, right.expr)));
      }
    }
  }
}
