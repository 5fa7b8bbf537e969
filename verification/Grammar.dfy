/** The grammar of expression texts: what the parser reads is exactly what the grammar writes. */
module Grammar {
  import opened Results
  import opened Printing
  import opened Parsing
  import opened RoundTrip

  /** Counts, with the blanks that may stand inside the braces. */
  datatype Quantifier =
    | ZeroOrOne
    | OneOrMore
    | ZeroOrMore
    | Exactly(b1: string, lo: string, b2: string)
    | Between(b1: string, lo: string, b2: string, b3: string, hi: string, b4: string)
    | AtLeast(b1: string, lo: string, b2: string, b3: string, star: bool, b4: string)

  /** A text of the grammar, with its blanks. */
  datatype Form =
    | Name(pre: string, name: string, post: string)
    | Group(pre: string, inner: Form, post: string)
    | Counted(part: Form, q: Quantifier, post: string)
    | Either(left: Form, right: Form)
    | Then(left: Form, right: Form)

  ghost predicate Blank(s: string) {
    forall i :: 0 <= i < |s| ==> s[i] == ' ' || s[i] == '\t' || s[i] == '\n' || s[i] == '\r'
  }

  ghost predicate Plain(s: string) {
    forall i :: 0 <= i < |s| ==> s[i] !in {' ', '\t', '\n', '\r', '\0', '(', ')', '|', ',', '{', '}', '*', '+', '?'}
  }

  ghost predicate Numeral(s: string) {
    s != "" && AllDigits(s)
  }

  ghost predicate ValidQuantifier(q: Quantifier) {
    match q
    case Exactly(b1, lo, b2) => Blank(b1) && Numeral(lo) && Blank(b2)
    case Between(b1, lo, b2, b3, hi, b4) =>
      && Blank(b1) && Numeral(lo) && Blank(b2) && Blank(b3) && Numeral(hi) && Blank(b4)
      && Value(lo, 0) <= Value(hi, 0)
    case AtLeast(b1, lo, b2, b3, _, b4) => Blank(b1) && Numeral(lo) && Blank(b2) && Blank(b3) && Blank(b4)
    case _ => true
  }

  /** How loosely a form binds: parts, counted parts, alternatives, sequences. */
  ghost function Level(f: Form): nat {
    match f
    case Name(_, _, _) => 0
    case Group(_, _, _) => 0
    case Counted(_, _, _) => 1
    case Either(_, _) => 2
    case Then(_, _) => 3
  }

  ghost predicate Valid(f: Form) {
    match f
    case Name(pre, name, post) => Blank(pre) && Plain(name) && Blank(post)
    case Group(pre, inner, post) => Blank(pre) && Valid(inner) && Blank(post)
    case Counted(part, q, post) => Valid(part) && Level(part) == 0 && ValidQuantifier(q) && Blank(post)
    case Either(left, right) => Valid(left) && Level(left) <= 2 && Valid(right) && Level(right) <= 1
    case Then(left, right) => Valid(left) && Level(left) <= 3 && Valid(right) && Level(right) <= 2
  }

  ghost function WriteQuantifier(q: Quantifier): string {
    match q
    case ZeroOrOne => "?"
    case OneOrMore => "+"
    case ZeroOrMore => "*"
    case Exactly(b1, lo, b2) => "{" + (b1 + lo) + (b2 + "}")
    case Between(b1, lo, b2, b3, hi, b4) => "{" + (b1 + lo) + (b2 + ",") + (b3 + hi) + (b4 + "}")
    case AtLeast(b1, lo, b2, b3, star, b4) =>
      "{" + (b1 + lo) + (b2 + ",") + ((b3 + if star then "*" else "") + (b4 + "}"))
  }

  ghost function Write(f: Form): string {
    match f
    case Name(pre, name, post) => pre + name + post
    case Group(pre, inner, post) => pre + ("(" + Write(inner) + ")") + post
    case Counted(part, q, post) => Write(part) + WriteQuantifier(q) + post
    case Either(left, right) => Write(left) + "|" + Write(right)
    case Then(left, right) => Write(left) + "," + Write(right)
  }

  /** The number of copies allowed; -1 is no upper limit. */
  ghost function Bounds(q: Quantifier): (nat, int)
    requires ValidQuantifier(q)
  {
    match q
    case ZeroOrOne => (0, 1)
    case OneOrMore => (1, -1)
    case ZeroOrMore => (0, -1)
    case Exactly(_, lo, _) => (Value(lo, 0), Value(lo, 0))
    case Between(_, lo, _, _, hi, _) => (Value(lo, 0), Value(hi, 0))
    case AtLeast(_, lo, _, _, _, _) => (Value(lo, 0), -1)
  }

  ghost function Tree(f: Form): Expr
    requires Valid(f)
  {
    match f
    case Name(_, name, _) => AtomExpr(name)
    case Group(_, inner, _) => Tree(inner)
    case Counted(part, q, _) => CountExpr(Tree(part), Bounds(q).0, Bounds(q).1)
    case Either(left, right) => OrExpr(Tree(left), Tree(right))
    case Then(left, right) => SeqExpr(Tree(left), Tree(right))
  }

  // ---- what the grammar writes is read ----

  lemma {:induction false} SkipsBlanks(text: string, pos: nat, b: string)
    requires Blank(b) && At(text, pos, b)
    ensures Skip(text, pos) == Skip(text, pos + |b|)
    decreases |b|
  {
    if b != "" {
      AtHead(text, pos, b);
      assert b == [b[0]] + b[1..];
      AtSplit(text, pos, [b[0]], b[1..]);
      SkipsBlanks(text, pos + 1, b[1..]);
    }
  }

  lemma ReadsNumeral(text: string, pos: nat, b: string, d: string)
    requires Blank(b) && Numeral(d) && At(text, pos, b + d) && !IsDigit(Cur(text, pos + |b| + |d|))
    ensures ReadNumber(text, pos) == (Value(d, 0), pos + |b| + |d|)
  {
    AtSplit(text, pos, b, d);
    SkipsBlanks(text, pos, b);
    AtHead(text, pos + |b|, d);
    ReadsDigits(text, pos + |b|, d, 0);
  }

  /** Blanks and one character that is neither a blank nor a digit. */
  lemma ReadsMark(text: string, pos: nat, b: string, c: char)
    requires Blank(b) && At(text, pos, b + [c]) && !IsBlank(c) && !IsDigit(c)
    ensures Skip(text, pos) == pos + |b| && Cur(text, pos + |b|) == c && pos + |b| < |text|
    ensures !IsDigit(Cur(text, pos))
  {
    AtSplit(text, pos, b, [c]);
    AtHead(text, pos + |b|, [c]);
    SkipsBlanks(text, pos, b);
  }

  /** The opening brace with the first number. */
  lemma ReadsBraceOpening(text: string, pos: nat, b1: string, lo: string, b2: string, c: char)
    requires Blank(b1) && Numeral(lo) && Blank(b2) && (c == ',' || c == '}')
    requires At(text, pos, "{" + (b1 + lo) + (b2 + [c]))
    ensures var p := pos + 1 + |b1| + |lo|;
      && Cur(text, pos) == '{' && ReadNumber(text, pos + 1) == (Value(lo, 0), p)
      && Skip(text, p) == p + |b2| && Cur(text, p + |b2|) == c && p + |b2| < |text|
  {
    AtSplit3(text, pos, "{", b1 + lo, b2 + [c]);
    BraceOpens(text, pos, b1, lo, b2, c);
  }

  lemma BraceOpens(text: string, pos: nat, b1: string, lo: string, b2: string, c: char)
    requires Blank(b1) && Numeral(lo) && Blank(b2) && (c == ',' || c == '}')
    requires At(text, pos, "{") && At(text, pos + 1, b1 + lo) && At(text, pos + 1 + |b1 + lo|, b2 + [c])
    ensures var p := pos + 1 + |b1| + |lo|;
      && Cur(text, pos) == '{' && ReadNumber(text, pos + 1) == (Value(lo, 0), p)
      && Skip(text, p) == p + |b2| && Cur(text, p + |b2|) == c && p + |b2| < |text|
  {
    AtHead(text, pos, "{");
    ReadsMark(text, pos + 1 + |b1 + lo|, b2, c);
    ReadsNumeral(text, pos + 1, b1, lo);
  }

  lemma ReadsExactCount(text: string, pos: nat, q: Quantifier, e: Expr)
    requires ValidQuantifier(q) && q.Exactly? && At(text, pos, WriteQuantifier(q))
    ensures ReadQuantifier(text, pos, Some(e))
         == Read(CountExpr(e, Bounds(q).0, Bounds(q).1), Skip(text, pos + |WriteQuantifier(q)|))
  {
    ReadsBraceOpening(text, pos, q.b1, q.lo, q.b2, '}');
    var z := pos + 1 + |q.b1| + |q.lo| + |q.b2|;
    assert Skip(text, z) == z;
  }

  /** Both bounds, the second one ending at z, are followed by the closing brace at y. */
  lemma ReadsTwoBounds(text: string, pos: nat, b1: string, lo: string, b2: string, p: nat, max: int, z: nat, y: nat,
                       e: Expr)
    requires Blank(b1) && Numeral(lo) && Blank(b2) && At(text, pos, "{" + (b1 + lo) + (b2 + ","))
    requires p == pos + 1 + |b1| + |lo| + |b2| && p < |text| && ReadNumber(text, p + 1) == (max, z)
    requires Skip(text, z) == y && y < |text| && text[y] == '}' && (max == -1 || Value(lo, 0) <= max)
    ensures ReadQuantifier(text, pos, Some(e)) == Read(CountExpr(e, Value(lo, 0), max), Skip(text, y + 1))
  {
    ReadsBraceOpening(text, pos, b1, lo, b2, ',');
  }

  lemma ReadsBetween(text: string, pos: nat, q: Quantifier, e: Expr)
    requires ValidQuantifier(q) && q.Between? && At(text, pos, WriteQuantifier(q))
    ensures ReadQuantifier(text, pos, Some(e))
         == Read(CountExpr(e, Bounds(q).0, Bounds(q).1), Skip(text, pos + |WriteQuantifier(q)|))
  {
    var open := "{" + (q.b1 + q.lo) + (q.b2 + ",");
    var p := pos + |open|;
    AtSplit3(text, pos, open, q.b3 + q.hi, q.b4 + "}");
    ReadsMark(text, p + |q.b3 + q.hi|, q.b4, '}');
    ReadsNumeral(text, p, q.b3, q.hi);
    ReadsTwoBounds(text, pos, q.b1, q.lo, q.b2, p - 1, Value(q.hi, 0), p + |q.b3 + q.hi|,
                   p + |q.b3 + q.hi| + |q.b4|, e);
  }

  lemma ReadsNoBound(text: string, pos: nat, b3: string, star: bool, b4: string)
    requires Blank(b3) && Blank(b4)
    requires At(text, pos, (b3 + if star then "*" else "") + (b4 + "}"))
    ensures var y := pos + |b3| + (if star then 1 else 0) + |b4|;
            ReadNumber(text, pos).0 == -1 && Skip(text, ReadNumber(text, pos).1) == y && y < |text| && text[y] == '}'
  {
    AtSplit(text, pos, b3 + if star then "*" else "", b4 + "}");
    if star {
      ReadsMark(text, pos, b3, '*');
      ReadsMark(text, pos + |b3| + 1, b4, '}');
    } else {
      assert b3 + "" == b3;
      ReadsMark(text, pos + |b3|, b4, '}');
      SkipsBlanks(text, pos, b3);
    }
  }

  lemma ReadsAtLeast(text: string, pos: nat, q: Quantifier, e: Expr)
    requires ValidQuantifier(q) && q.AtLeast? && At(text, pos, WriteQuantifier(q))
    ensures ReadQuantifier(text, pos, Some(e))
         == Read(CountExpr(e, Bounds(q).0, Bounds(q).1), Skip(text, pos + |WriteQuantifier(q)|))
  {
    var open := "{" + (q.b1 + q.lo) + (q.b2 + ",");
    var bound := q.b3 + if q.star then "*" else "";
    var p := pos + |open|;
    AtSplit(text, pos, open, bound + (q.b4 + "}"));
    ReadsNoBound(text, p, q.b3, q.star, q.b4);
    ReadsTwoBounds(text, pos, q.b1, q.lo, q.b2, p - 1, -1, ReadNumber(text, p).1, p + |bound| + |q.b4|, e);
  }

  lemma ReadsWritten(text: string, pos: nat, q: Quantifier, e: Expr)
    requires ValidQuantifier(q) && At(text, pos, WriteQuantifier(q))
    ensures ReadQuantifier(text, pos, Some(e))
         == Read(CountExpr(e, Bounds(q).0, Bounds(q).1), Skip(text, pos + |WriteQuantifier(q)|))
    ensures StartsQuantifier(Cur(text, pos))
  {
    AtHead(text, pos, WriteQuantifier(q));
    if q.Exactly? {
      ReadsExactCount(text, pos, q, e);
    } else if q.Between? {
      ReadsBetween(text, pos, q, e);
    } else if q.AtLeast? {
      ReadsAtLeast(text, pos, q, e);
    }
  }

  /** What stands directly behind a part. */
  ghost predicate Ends(c: char) {
    c == '\0' || c == ')' || c == '|' || c == ','
  }

  lemma PlainIsClean(a: string)
    ensures Plain(a) <==> CleanName(a)
  {
  }

  lemma ReadsNameForm(text: string, pos: nat, pre: string, name: string, post: string)
    requires Blank(pre) && Plain(name) && Blank(post) && At(text, pos, pre + name + post)
    requires var c := Cur(text, pos + |pre| + |name| + |post|); Ends(c) || StartsQuantifier(c)
    ensures ReadPrimary(text, pos) == Found(Some(AtomExpr(name)), pos + |pre| + |name| + |post|)
  {
    var p := pos + |pre|;
    var q := p + |name|;
    AtSplit3(text, pos, pre, name, post);
    PlainIsClean(name);
    SkipsBlanks(text, pos, pre);
    SkipsBlanks(text, q, post);
    if post != "" {
      AtHead(text, q, post);
    }
    if name != "" {
      AtHead(text, p, name);
      NameEndsAt(text, p, name);
    } else {
      EmptyName(text, p, q + |post|);
    }
  }

  /** Without a name, all blanks up to the end of the part are skipped at once. */
  lemma EmptyName(text: string, p: nat, end: nat)
    requires p <= end <= |text| && Skip(text, p) == end && IsDelimiter(Cur(text, end)) && Cur(text, end) != '('
    ensures ReadPrimary(text, p) == Found(Some(AtomExpr("")), end)
  {
    assert text[end..end] == "";
  }

  /** s stands in the text from pos to end. */
  ghost predicate Spans(text: string, pos: nat, end: nat, s: string) {
    pos <= end <= |text| && text[pos..end] == s
  }

  lemma SpansAt(text: string, pos: nat, end: nat, s: string)
    requires Spans(text, pos, end, s)
    ensures At(text, pos, s) && end == pos + |s|
  {
    forall i | 0 <= i < |s|
      ensures s[i] == text[pos + i]
    {
      assert s[i] == text[pos..end][i];
    }
  }

  lemma SpansSplit(text: string, pos: nat, end: nat, a: string, b: string)
    requires Spans(text, pos, end, a + b)
    ensures Spans(text, pos, pos + |a|, a) && Spans(text, pos + |a|, end, b)
  {
    var s := text[pos..end];
    assert s[..|a|] == a && s[|a|..] == b;
  }

  lemma SpansSplit3(text: string, pos: nat, end: nat, a: string, b: string, c: string)
    requires Spans(text, pos, end, a + b + c)
    ensures Spans(text, pos, pos + |a|, a) && Spans(text, pos + |a|, pos + |a| + |b|, b)
    ensures Spans(text, pos + |a| + |b|, end, c)
  {
    SpansSplit(text, pos, end, a + b, c);
    SpansSplit(text, pos, pos + |a + b|, a, b);
  }

  lemma SpansMark(text: string, pos: nat, end: nat, c: char)
    requires Spans(text, pos, end, [c])
    ensures end == pos + 1 && text[pos] == c
  {
    assert text[pos] == text[pos..end][0];
  }

  lemma GroupSplits(text: string, pos: nat, end: nat, pre: string, inner: string, post: string)
    requires Spans(text, pos, end, pre + ("(" + inner + ")") + post)
    ensures var p, q := pos + |pre|, end - |post| - 1;
      && 0 <= p < q < |text| && q == p + 1 + |inner| && text[p] == '(' && text[q] == ')'
      && Spans(text, pos, p, pre) && Spans(text, p + 1, q, inner) && Spans(text, q + 1, end, post)
  {
    var p := pos + |pre|;
    SpansSplit3(text, pos, end, pre, "(" + inner + ")", post);
    SpansSplit3(text, p, p + 2 + |inner|, "(", inner, ")");
    SpansMark(text, p, p + 1, '(');
    SpansMark(text, p + 1 + |inner|, p + 2 + |inner|, ')');
  }

  lemma GroupIsRead(text: string, pos: nat, end: nat, pre: string, e: Expr, p: nat, q: nat, post: string)
    requires Blank(pre) && Blank(post) && p < q < |text| && text[p] == '(' && text[q] == ')'
    requires Spans(text, pos, p, pre) && Spans(text, q + 1, end, post)
    requires ReadExpr(text, p + 1) == Read(e, q) && (Ends(Cur(text, end)) || StartsQuantifier(Cur(text, end)))
    ensures ReadPrimary(text, pos) == Found(Some(e), end)
  {
    SpansAt(text, pos, p, pre);
    SpansAt(text, q + 1, end, post);
    SkipsBlanks(text, pos, pre);
    SkipsBlanks(text, q + 1, post);
    assert Skip(text, q) == q;
  }

  lemma NameSpans(text: string, pos: nat, end: nat, pre: string, name: string, post: string)
    requires Blank(pre) && Plain(name) && Blank(post) && Spans(text, pos, end, pre + name + post)
    requires Ends(Cur(text, end)) || StartsQuantifier(Cur(text, end))
    ensures ReadPrimary(text, pos) == Found(Some(AtomExpr(name)), end)
  {
    SpansAt(text, pos, end, pre + name + post);
    ReadsNameForm(text, pos, pre, name, post);
  }

  /** A name or a group, in front of a quantifier or at its end. */
  lemma {:induction false} ReadsPrimaryForm(f: Form, text: string, pos: nat, end: nat)
    requires Valid(f) && Level(f) == 0 && Spans(text, pos, end, Write(f))
    requires Ends(Cur(text, end)) || StartsQuantifier(Cur(text, end))
    ensures ReadPrimary(text, pos) == Found(Some(Tree(f)), end)
    decreases f, 0
  {
    match f
    case Name(pre, name, post) => NameSpans(text, pos, end, pre, name, post);
    case Group(pre, inner, post) => ReadsGroupForm(pre, inner, post, text, pos, end);
  }

  lemma {:induction false} ReadsGroupForm(pre: string, inner: Form, post: string, text: string, pos: nat, end: nat)
    requires Blank(pre) && Valid(inner) && Blank(post)
    requires Spans(text, pos, end, pre + ("(" + Write(inner) + ")") + post)
    requires Ends(Cur(text, end)) || StartsQuantifier(Cur(text, end))
    ensures ReadPrimary(text, pos) == Found(Some(Tree(inner)), end)
    decreases inner, 5
  {
    var p, q := pos + |pre|, end - |post| - 1;
    GroupSplits(text, pos, end, pre, Write(inner), post);
    ReadsForm(inner, text, p + 1, q);
    GroupIsRead(text, pos, end, pre, Tree(inner), p, q, post);
  }

  lemma CountSplits(text: string, pos: nat, end: nat, part: string, q: string, post: string)
    requires Spans(text, pos, end, part + q + post)
    ensures Spans(text, pos, pos + |part|, part) && At(text, pos + |part|, q) && At(text, pos + |part| + |q|, post)
    ensures end == pos + |part| + |q| + |post|
  {
    SpansSplit3(text, pos, end, part, q, post);
    SpansAt(text, pos + |part|, pos + |part| + |q|, q);
    SpansAt(text, pos + |part| + |q|, end, post);
  }

  lemma CountIsRead(text: string, pos: nat, end: nat, p: nat, e: Expr, q: Quantifier, post: string)
    requires pos <= p && ValidQuantifier(q) && At(text, p, WriteQuantifier(q))
    requires Blank(post) && At(text, p + |WriteQuantifier(q)|, post) && end == p + |WriteQuantifier(q)| + |post|
    requires ReadPrimary(text, pos) == Found(Some(e), p) && Ends(Cur(text, end))
    ensures ReadOr(text, pos) == Read(CountExpr(e, Bounds(q).0, Bounds(q).1), end)
  {
    ReadsWritten(text, p, q, e);
    SkipsBlanks(text, p + |WriteQuantifier(q)|, post);
  }

  lemma QuantifierStarts(text: string, pos: nat, q: Quantifier)
    requires At(text, pos, WriteQuantifier(q))
    ensures StartsQuantifier(Cur(text, pos))
  {
    AtHead(text, pos, WriteQuantifier(q));
  }

  /** A part with or without a quantifier. */
  lemma {:induction false} ReadsOrForm(f: Form, text: string, pos: nat, end: nat)
    requires Valid(f) && Level(f) <= 1 && Spans(text, pos, end, Write(f)) && Ends(Cur(text, end))
    ensures ReadOr(text, pos) == Read(Tree(f), end)
    decreases f, 1
  {
    if f.Counted? {
      var p := pos + |Write(f.part)|;
      CountSplits(text, pos, end, Write(f.part), WriteQuantifier(f.q), f.post);
      QuantifierStarts(text, p, f.q);
      ReadsPrimaryForm(f.part, text, pos, p);
      CountIsRead(text, pos, end, p, Tree(f.part), f.q, f.post);
    } else {
      ReadsPrimaryForm(f, text, pos, end);
    }
  }

  lemma PairOfForms(text: string, pos: nat, end: nat, a: string, c: char, b: string)
    requires Spans(text, pos, end, a + [c] + b)
    ensures var p := pos + |a|; Spans(text, pos, p, a) && p < end && text[p] == c && Spans(text, p + 1, end, b)
  {
    SpansSplit3(text, pos, end, a, [c], b);
    SpansMark(text, pos + |a|, pos + |a| + 1, c);
  }

  lemma FirstAlternative(text: string, pos: nat, end: nat, e: Expr)
    requires pos <= end <= |text| && ReadOr(text, pos) == Read(e, end) && Ends(Cur(text, end))
    ensures ReadSeq(text, pos) == MoreOr(text, end, Some(e))
  {
    assert Skip(text, end) == end;
  }

  lemma OneMoreAlternative(text: string, pos: nat, p: nat, end: nat, l: Expr, r: Expr)
    requires pos <= p < end <= |text| && text[p] == '|' && Ends(Cur(text, end))
    requires ReadSeq(text, pos) == MoreOr(text, p, Some(l)) && ReadOr(text, p + 1) == Read(r, end)
    ensures ReadSeq(text, pos) == MoreOr(text, end, Some(OrExpr(l, r)))
  {
  }

  /** Alternatives, up to where more of them may follow. */
  lemma {:induction false} ReadsSeqForm(f: Form, text: string, pos: nat, end: nat)
    requires Valid(f) && Level(f) <= 2 && Spans(text, pos, end, Write(f)) && Ends(Cur(text, end))
    ensures ReadSeq(text, pos) == MoreOr(text, end, Some(Tree(f)))
    decreases f, 2
  {
    if f.Either? {
      var p := pos + |Write(f.left)|;
      PairOfForms(text, pos, end, Write(f.left), '|', Write(f.right));
      ReadsSeqForm(f.left, text, pos, p);
      ReadsOrForm(f.right, text, p + 1, end);
      OneMoreAlternative(text, pos, p, end, Tree(f.left), Tree(f.right));
    } else {
      ReadsOrForm(f, text, pos, end);
      FirstAlternative(text, pos, end, Tree(f));
    }
  }

  lemma FirstInSequence(text: string, pos: nat, end: nat, e: Expr)
    requires pos <= end <= |text| && ReadSeq(text, pos) == MoreOr(text, end, Some(e))
    requires Ends(Cur(text, end)) && Cur(text, end) != '|'
    ensures ReadExpr(text, pos) == MoreSeq(text, end, Some(e))
  {
    assert Skip(text, end) == end;
  }

  lemma OneMoreInSequence(text: string, pos: nat, p: nat, end: nat, l: Expr, r: Expr)
    requires pos <= p < end <= |text| && text[p] == ',' && Ends(Cur(text, end)) && Cur(text, end) != '|'
    requires ReadExpr(text, pos) == MoreSeq(text, p, Some(l))
    requires ReadSeq(text, p + 1) == MoreOr(text, end, Some(r))
    ensures ReadExpr(text, pos) == MoreSeq(text, end, Some(SeqExpr(l, r)))
  {
  }

  /** Sequences, up to where more may follow. */
  lemma {:induction false} ReadsExprForm(f: Form, text: string, pos: nat, end: nat)
    requires Valid(f) && Spans(text, pos, end, Write(f)) && Ends(Cur(text, end)) && Cur(text, end) != '|'
    ensures ReadExpr(text, pos) == MoreSeq(text, end, Some(Tree(f)))
    decreases f, 3
  {
    if f.Then? {
      var p := pos + |Write(f.left)|;
      PairOfForms(text, pos, end, Write(f.left), ',', Write(f.right));
      ReadsExprForm(f.left, text, pos, p);
      ReadsSeqForm(f.right, text, p + 1, end);
      OneMoreInSequence(text, pos, p, end, Tree(f.left), Tree(f.right));
    } else {
      ReadsSeqForm(f, text, pos, end);
      FirstInSequence(text, pos, end, Tree(f));
    }
  }

  lemma {:induction false} ReadsForm(f: Form, text: string, pos: nat, end: nat)
    requires Valid(f) && Spans(text, pos, end, Write(f)) && (Cur(text, end) == '\0' || Cur(text, end) == ')')
    ensures ReadExpr(text, pos) == Read(Tree(f), end)
    decreases f, 4
  {
    ReadsExprForm(f, text, pos, end);
  }

  /** Everything the grammar writes is read as its tree, to the end. */
  lemma WrittenIsRead(f: Form)
    requires Valid(f)
    ensures ReadText(Write(f)) == Read(Tree(f), |Write(f)|)
  {
    ReadsForm(f, Write(f), 0, |Write(f)|);
  }

  // ---- what is read was written by the grammar ----

  /** Texts of C hold no NUL. */
  ghost predicate NoNul(text: string) {
    forall i :: 0 <= i < |text| ==> text[i] != '\0'
  }

  lemma {:induction false} BlanksSkipped(text: string, pos: nat)
    requires pos <= |text|
    ensures Blank(text[pos..Skip(text, pos)])
    decreases |text| - pos
  {
    var r := Skip(text, pos);
    if IsBlank(Cur(text, pos)) {
      BlanksSkipped(text, pos + 1);
      assert text[pos..r] == [text[pos]] + text[pos + 1..r];
    }
  }

  lemma {:induction false} DigitsRead(text: string, pos: nat, value: nat)
    requires pos <= |text|
    ensures var (v, q) := ReadDigits(text, pos, value);
            AllDigits(text[pos..q]) && Value(text[pos..q], value) == v
    decreases |text| - pos
  {
    var q := ReadDigits(text, pos, value).1;
    var c := Cur(text, pos);
    if IsDigit(c) {
      DigitsRead(text, pos + 1, value * 10 + (c as int - '0' as int));
      assert text[pos..q][1..] == text[pos + 1..q] && text[pos..q][0] == c;
    }
  }

  /** A number read is blanks and a numeral. */
  lemma NumberRead(text: string, pos: nat) returns (b: string, d: string)
    requires pos <= |text| && ReadNumber(text, pos).0 >= 0
    ensures Blank(b) && Numeral(d) && Value(d, 0) == ReadNumber(text, pos).0
    ensures Spans(text, pos, ReadNumber(text, pos).1, b + d)
  {
    var p, q := Skip(text, pos), ReadNumber(text, pos).1;
    BlanksSkipped(text, pos);
    DigitsRead(text, p, 0);
    b, d := text[pos..p], text[p..q];
    assert text[pos..q] == b + d;
  }

  lemma SpansJoin(text: string, pos: nat, mid: nat, end: nat, a: string, b: string)
    requires Spans(text, pos, mid, a) && Spans(text, mid, end, b)
    ensures Spans(text, pos, end, a + b)
  {
    assert text[pos..end] == text[pos..mid] + text[mid..end];
  }

  /** Blanks up to a character. */
  lemma MarkRead(text: string, pos: nat, c: char) returns (b: string)
    requires pos <= |text| && c != '\0' && Cur(text, Skip(text, pos)) == c
    ensures Blank(b) && Skip(text, pos) < |text| && Spans(text, pos, Skip(text, pos) + 1, b + [c])
  {
    var p := Skip(text, pos);
    BlanksSkipped(text, pos);
    b := text[pos..p];
    assert text[pos..p + 1] == b + [c];
  }

  /** The opening of a count, up to its comma or closing brace. */
  lemma OpeningRead(text: string, pos: nat, c: char) returns (b1: string, lo: string, b2: string)
    requires pos < |text| && text[pos] == '{' && ReadNumber(text, pos + 1).0 >= 0 && c != '\0'
    requires Cur(text, Skip(text, ReadNumber(text, pos + 1).1)) == c
    ensures Blank(b1) && Numeral(lo) && Blank(b2) && Value(lo, 0) == ReadNumber(text, pos + 1).0
    ensures var z := Skip(text, ReadNumber(text, pos + 1).1);
            z < |text| && Spans(text, pos, z + 1, "{" + (b1 + lo) + (b2 + [c]))
  {
    var p := ReadNumber(text, pos + 1).1;
    b1, lo := NumberRead(text, pos + 1);
    b2 := MarkRead(text, p, c);
    assert text[pos..pos + 1] == "{";
    SpansJoin(text, pos, pos + 1, p, "{", b1 + lo);
    SpansJoin(text, pos, p, Skip(text, p) + 1, "{" + (b1 + lo), b2 + [c]);
  }

  /** Instead of a second number: blanks and perhaps a star. */
  lemma NoBoundRead(text: string, pos: nat) returns (b3: string, star: bool, b4: string)
    requires pos <= |text| && ReadNumber(text, pos).0 == -1 && Cur(text, Skip(text, ReadNumber(text, pos).1)) == '}'
    ensures Blank(b3) && Blank(b4)
    ensures var y := Skip(text, ReadNumber(text, pos).1);
            y < |text| && Spans(text, pos, y + 1, (b3 + if star then "*" else "") + (b4 + "}"))
  {
    var p, z := Skip(text, pos), ReadNumber(text, pos).1;
    BlanksSkipped(text, pos);
    b4 := MarkRead(text, z, '}');
    b3, star := text[pos..p], Cur(text, p) == '*';
    assert Spans(text, pos, z, b3 + if star then "*" else "") by {
      assert text[pos..z] == b3 + if star then "*" else "";
    }
    SpansJoin(text, pos, z, Skip(text, z) + 1, b3 + if star then "*" else "", b4 + "}");
  }

  /** A count in braces that is read, ending with its closing brace before y. */
  lemma BracesRead(text: string, pos: nat, e: Expr) returns (q: Quantifier, y: nat)
    requires pos < |text| && text[pos] == '{' && ReadQuantifier(text, pos, Some(e)).Read?
    ensures ValidQuantifier(q) && Spans(text, pos, y, WriteQuantifier(q))
    ensures ReadQuantifier(text, pos, Some(e)) == Read(CountExpr(e, Bounds(q).0, Bounds(q).1), Skip(text, y))
  {
    var (min, p) := ReadNumber(text, pos + 1);
    var z := Skip(text, p);
    if Cur(text, z) != ',' {
      var b1, lo, b2 := OpeningRead(text, pos, '}');
      q, y := Exactly(b1, lo, b2), z + 1;
      assert Skip(text, z) == z;
    } else if ReadNumber(text, z + 1).0 == -1 {
      q, y := AtLeastRead(text, pos, z, e);
    } else {
      q, y := BetweenRead(text, pos, z, e);
    }
  }

  lemma AtLeastRead(text: string, pos: nat, z: nat, e: Expr) returns (q: Quantifier, y: nat)
    requires pos < |text| && text[pos] == '{' && ReadQuantifier(text, pos, Some(e)).Read?
    requires z == Skip(text, ReadNumber(text, pos + 1).1) && Cur(text, z) == ',' && ReadNumber(text, z + 1).0 == -1
    requires Cur(text, Skip(text, ReadNumber(text, z + 1).1)) == '}'
    ensures ValidQuantifier(q) && Spans(text, pos, y, WriteQuantifier(q))
    ensures ReadQuantifier(text, pos, Some(e)) == Read(CountExpr(e, Bounds(q).0, Bounds(q).1), Skip(text, y))
  {
    TwoBoundsRead(text, pos, z, e);
    var b1, lo, b2 := OpeningRead(text, pos, ',');
    var b3, star, b4 := NoBoundRead(text, z + 1);
    q, y := AtLeast(b1, lo, b2, b3, star, b4), Skip(text, ReadNumber(text, z + 1).1) + 1;
    SpansJoin(text, pos, z + 1, y, "{" + (b1 + lo) + (b2 + ","), (b3 + if star then "*" else "") + (b4 + "}"));
  }

  /** What is read when there is a comma at z. */
  lemma TwoBoundsRead(text: string, pos: nat, z: nat, e: Expr)
    requires pos < |text| && text[pos] == '{' && ReadQuantifier(text, pos, Some(e)).Read?
    requires z == Skip(text, ReadNumber(text, pos + 1).1) && Cur(text, z) == ','
    ensures var (min, max) := (ReadNumber(text, pos + 1).0, ReadNumber(text, z + 1));
      && min >= 0 && (max.0 == -1 || min <= max.0) && Cur(text, Skip(text, max.1)) == '}'
      && ReadQuantifier(text, pos, Some(e)) == Read(CountExpr(e, min, max.0), Skip(text, Skip(text, max.1) + 1))
  {
  }

  lemma BetweenRead(text: string, pos: nat, z: nat, e: Expr) returns (q: Quantifier, y: nat)
    requires pos < |text| && text[pos] == '{' && ReadQuantifier(text, pos, Some(e)).Read?
    requires z == Skip(text, ReadNumber(text, pos + 1).1) && Cur(text, z) == ',' && ReadNumber(text, z + 1).0 >= 0
    requires Cur(text, Skip(text, ReadNumber(text, z + 1).1)) == '}'
    ensures ValidQuantifier(q) && Spans(text, pos, y, WriteQuantifier(q))
    ensures ReadQuantifier(text, pos, Some(e)) == Read(CountExpr(e, Bounds(q).0, Bounds(q).1), Skip(text, y))
  {
    var x := ReadNumber(text, z + 1).1;
    var b1, lo, b2 := OpeningRead(text, pos, ',');
    var b3, hi := NumberRead(text, z + 1);
    var b4 := MarkRead(text, x, '}');
    q, y := Between(b1, lo, b2, b3, hi, b4), Skip(text, x) + 1;
    SpansJoin(text, pos, z + 1, x, "{" + (b1 + lo) + (b2 + ","), b3 + hi);
    SpansJoin(text, pos, x, y, "{" + (b1 + lo) + (b2 + ",") + (b3 + hi), b4 + "}");
    TwoBoundsRead(text, pos, z, e);
  }

  lemma MarkIsWritten(text: string, pos: nat, e: Expr) returns (q: Quantifier)
    requires pos < |text| && (text[pos] == '?' || text[pos] == '+' || text[pos] == '*')
    ensures ValidQuantifier(q) && Spans(text, pos, pos + 1, WriteQuantifier(q))
    ensures ReadQuantifier(text, pos, Some(e)) == Read(CountExpr(e, Bounds(q).0, Bounds(q).1), Skip(text, pos + 1))
  {
    q := if text[pos] == '?' then ZeroOrOne else if text[pos] == '+' then OneOrMore else ZeroOrMore;
    assert text[pos..pos + 1] == [text[pos]];
  }

  /** A form for what was read from pos up to `next`, where no blank is left. */
  ghost predicate FormOf(f: Form, text: string, pos: nat, next: nat, e: Expr, level: nat) {
    && Valid(f) && Level(f) <= level && Tree(f) == e && Spans(text, pos, next, Write(f)) && !IsBlank(Cur(text, next))
  }

  lemma NameRead(text: string, pos: nat) returns (f: Form)
    requires pos <= |text| && Cur(text, Skip(text, pos)) != '('
    ensures var r := ReadPrimary(text, pos);
            r.Found? && r.expr.Some? && FormOf(f, text, pos, r.next, r.expr.value, 0)
  {
    var p := Skip(text, pos);
    var q := NameEnd(text, p);
    var next := Skip(text, q);
    BlanksSkipped(text, pos);
    BlanksSkipped(text, q);
    NameIsClean(text, p);
    var pre, name, post := text[pos..p], text[p..q], text[q..next];
    PlainIsClean(name);
    f := Name(pre, name, post);
    SpansJoin(text, pos, p, q, pre, name);
    SpansJoin(text, pos, q, next, pre + name, post);
  }

  lemma GroupJoins(text: string, pos: nat, p: nat, q: nat, next: nat, pre: string, inner: string, post: string)
    requires q < |text| && p < q && text[p] == '(' && text[q] == ')'
    requires Spans(text, pos, p, pre) && Spans(text, p + 1, q, inner) && Spans(text, q + 1, next, post)
    ensures Spans(text, pos, next, pre + ("(" + inner + ")") + post)
  {
    assert text[p..p + 1] == "(" && text[q..q + 1] == ")";
    SpansJoin(text, p, p + 1, q, "(", inner);
    SpansJoin(text, p, q, q + 1, "(" + inner, ")");
    SpansJoin(text, pos, p, q + 1, pre, "(" + inner + ")");
    SpansJoin(text, pos, q + 1, next, pre + ("(" + inner + ")"), post);
  }

  lemma GroupRead(text: string, pos: nat, inner: Form, e: Expr, q: nat) returns (f: Form)
    requires pos <= |text| && Cur(text, Skip(text, pos)) == '('
    requires ReadExpr(text, Skip(text, pos) + 1) == Read(e, q) && q < |text| && text[q] == ')'
    requires FormOf(inner, text, Skip(text, pos) + 1, q, e, 3)
    ensures FormOf(f, text, pos, Skip(text, q + 1), e, 0)
  {
    var p, next := Skip(text, pos), Skip(text, q + 1);
    BlanksSkipped(text, pos);
    BlanksSkipped(text, q + 1);
    var pre, post := text[pos..p], text[q + 1..next];
    f := Group(pre, inner, post);
    GroupJoins(text, pos, p, q, next, pre, Write(inner), post);
  }

  lemma {:induction false} PrimaryRead(text: string, pos: nat) returns (f: Form)
    requires pos <= |text| && ReadPrimary(text, pos).Found?
    requires var e := ReadPrimary(text, pos).expr; e.Some? && NoStatics(e.value)
    ensures var r := ReadPrimary(text, pos); FormOf(f, text, pos, r.next, r.expr.value, 0)
    decreases |text| - pos, 0
  {
    var p := Skip(text, pos);
    if Cur(text, p) == '(' {
      var inner := ReadExpr(text, p + 1);
      var form := ExprRead(text, p + 1);
      assert Skip(text, inner.next) == inner.next;
      f := GroupRead(text, pos, form, inner.expr, inner.next);
    } else {
      f := NameRead(text, pos);
    }
  }

  lemma CountRead(text: string, pos: nat, part: Form, e: Expr, p: nat, q: Quantifier, y: nat) returns (f: Form)
    requires FormOf(part, text, pos, p, e, 0) && ValidQuantifier(q) && Spans(text, p, y, WriteQuantifier(q))
    ensures FormOf(f, text, pos, Skip(text, y), CountExpr(e, Bounds(q).0, Bounds(q).1), 1)
  {
    var next := Skip(text, y);
    BlanksSkipped(text, y);
    var post := text[y..next];
    f := Counted(part, q, post);
    SpansJoin(text, pos, p, y, Write(part), WriteQuantifier(q));
    SpansJoin(text, pos, y, next, Write(part) + WriteQuantifier(q), post);
  }

  lemma {:induction false} OrRead(text: string, pos: nat) returns (f: Form)
    requires pos <= |text| && ReadOr(text, pos).Read? && NoStatics(ReadOr(text, pos).expr)
    ensures var r := ReadOr(text, pos); FormOf(f, text, pos, r.next, r.expr, 1)
    decreases |text| - pos, 1
  {
    var primary := ReadPrimary(text, pos);
    QuantifierKeeps(text, primary.next, primary.expr);
    var part := PrimaryRead(text, pos);
    f := QuantifiedRead(text, pos, part, primary.expr.value, primary.next);
  }

  /** Only a part of names alone gives an expression of names alone. */
  lemma QuantifierKeeps(text: string, p: nat, e: Option<Expr>)
    requires p <= |text| && ReadQuantifier(text, p, e).Read? && NoStatics(ReadQuantifier(text, p, e).expr)
    ensures e.Some? && NoStatics(e.value)
  {
  }

  lemma QuantifiedRead(text: string, pos: nat, part: Form, e: Expr, p: nat) returns (f: Form)
    requires FormOf(part, text, pos, p, e, 0) && ReadQuantifier(text, p, Some(e)).Read?
    ensures var r := ReadQuantifier(text, p, Some(e)); FormOf(f, text, pos, r.next, r.expr, 1)
  {
    if Cur(text, p) == '{' {
      var q, y := BracesRead(text, p, e);
      f := CountRead(text, pos, part, e, p, q, y);
    } else if StartsQuantifier(Cur(text, p)) {
      var q := MarkIsWritten(text, p, e);
      f := CountRead(text, pos, part, e, p, q, p + 1);
    } else {
      f := part;
    }
  }

  /** The left part stays in what is read. */
  lemma {:induction false} LeftStaysInOr(text: string, pos: nat, e: Option<Expr>)
    requires pos <= |text| && MoreOr(text, pos, e).Read? && NoStatics(MoreOr(text, pos, e).expr)
    ensures e.Some? && NoStatics(e.value)
    decreases |text| - pos
  {
    if Cur(text, pos) == '|' {
      var right := ReadOr(text, pos + 1);
      LeftStaysInOr(text, right.next, Some(OrExpr(e.value, right.expr)));
    }
  }

  lemma JoinForms(text: string, pos: nat, p: nat, next: nat, l: Form, c: char, r: Form)
    requires Spans(text, pos, p, Write(l)) && p < |text| && text[p] == c && Spans(text, p + 1, next, Write(r))
    ensures Spans(text, pos, next, Write(l) + [c] + Write(r))
  {
    assert text[p..p + 1] == [c];
    SpansJoin(text, pos, p, p + 1, Write(l), [c]);
    SpansJoin(text, pos, p + 1, next, Write(l) + [c], Write(r));
  }

  lemma {:induction false} MoreOrRead(text: string, start: nat, pos: nat, left: Form, e: Expr) returns (f: Form)
    requires FormOf(left, text, start, pos, e, 2)
    requires MoreOr(text, pos, Some(e)).Read? && NoStatics(MoreOr(text, pos, Some(e)).expr)
    ensures var r := MoreOr(text, pos, Some(e)); FormOf(f, text, start, r.next, r.expr, 2)
    decreases |text| - pos, 2
  {
    if Cur(text, pos) != '|' {
      return left;
    }
    var right := ReadOr(text, pos + 1);
    LeftStaysInOr(text, right.next, Some(OrExpr(e, right.expr)));
    var next := OrRead(text, pos + 1);
    JoinForms(text, start, pos, right.next, left, '|', next);
    f := MoreOrRead(text, start, right.next, Either(left, next), OrExpr(e, right.expr));
  }

  lemma {:induction false} SeqRead(text: string, pos: nat) returns (f: Form)
    requires pos <= |text| && ReadSeq(text, pos).Read? && NoStatics(ReadSeq(text, pos).expr)
    ensures var r := ReadSeq(text, pos); FormOf(f, text, pos, r.next, r.expr, 2)
    decreases |text| - pos, 3
  {
    var first := ReadOr(text, pos);
    LeftStaysInOr(text, Skip(text, first.next), Expression(first));
    var left := OrRead(text, pos);
    assert Skip(text, first.next) == first.next;
    f := MoreOrRead(text, pos, first.next, left, first.expr);
  }

  lemma {:induction false} LeftStaysInSeq(text: string, pos: nat, e: Option<Expr>)
    requires pos <= |text| && MoreSeq(text, pos, e).Read? && NoStatics(MoreSeq(text, pos, e).expr)
    ensures e.Some? && NoStatics(e.value)
    decreases |text| - pos
  {
    if Cur(text, pos) == ',' {
      var right := ReadSeq(text, pos + 1);
      LeftStaysInSeq(text, right.next, Some(SeqExpr(e.value, right.expr)));
    }
  }

  lemma {:induction false} MoreSeqRead(text: string, start: nat, pos: nat, left: Form, e: Expr) returns (f: Form)
    requires FormOf(left, text, start, pos, e, 3)
    requires MoreSeq(text, pos, Some(e)).Read? && NoStatics(MoreSeq(text, pos, Some(e)).expr)
    ensures var r := MoreSeq(text, pos, Some(e)); FormOf(f, text, start, r.next, r.expr, 3)
    decreases |text| - pos, 4
  {
    if Cur(text, pos) != ',' {
      return left;
    }
    var right := ReadSeq(text, pos + 1);
    LeftStaysInSeq(text, right.next, Some(SeqExpr(e, right.expr)));
    var next := SeqRead(text, pos + 1);
    JoinForms(text, start, pos, right.next, left, ',', next);
    f := MoreSeqRead(text, start, right.next, Then(left, next), SeqExpr(e, right.expr));
  }

  lemma {:induction false} ExprRead(text: string, pos: nat) returns (f: Form)
    requires pos <= |text| && ReadExpr(text, pos).Read? && NoStatics(ReadExpr(text, pos).expr)
    ensures var r := ReadExpr(text, pos); FormOf(f, text, pos, r.next, r.expr, 3)
    decreases |text| - pos, 5
  {
    var first := ReadSeq(text, pos);
    LeftStaysInSeq(text, Skip(text, first.next), Expression(first));
    var left := SeqRead(text, pos);
    assert Skip(text, first.next) == first.next;
    f := MoreSeqRead(text, pos, first.next, left, first.expr);
  }

  ghost predicate Spells(f: Form, text: string, e: Expr) {
    Valid(f) && Write(f) == text && Tree(f) == e
  }

  /** An expression of names is read from a text exactly when the grammar writes the text for it. */
  lemma GrammarIsExact(text: string, e: Expr)
    requires NoStatics(e)
    ensures ReadText(text) == Read(e, |text|) <==> exists f :: Spells(f, text, e)
  {
    if f :| Spells(f, text, e) {
      WrittenIsRead(f);
    }
    if ReadText(text) == Read(e, |text|) {
      var r := ReadExpr(text, 0);
      var f := ExprRead(text, 0);
      assert Skip(text, r.next) == r.next;
      assert text[0..|text|] == text;
      assert Spells(f, text, e);
    }
  }

  /** Whatever is read uses up the text. */
  lemma ReadToTheEnd(text: string)
    requires NoNul(text) && ReadText(text).Read?
    ensures ReadText(text).next == |text|
  {
  }

  /** A bracket too many is refused. */
  lemma UnbalancedIsRefused(f: Form)
    requires Valid(f)
    ensures ReadText("(" + Write(f)).Null? && ReadText(Write(f) + ")").Null?
  {
    var open, close := "(" + Write(f), Write(f) + ")";
    assert Spans(open, 1, |open|, Write(f)) && Spans(close, 0, |close| - 1, Write(f));
    ReadsForm(f, open, 1, |open|);
    ReadsForm(f, close, 0, |close| - 1);
    NeverClosed(open);
    assert Skip(close, |close| - 1) == |close| - 1;
  }

  lemma NeverClosed(text: string)
    requires |text| > 0 && text[0] == '(' && ReadExpr(text, 1).Read? && ReadExpr(text, 1).next == |text|
    ensures ReadText(text).Null?
  {
    var n := |text|;
    assert Skip(text, 0) == 0 && Skip(text, n) == n;
    assert ReadPrimary(text, 0) == Refused(n);
    assert ReadOr(text, 0) == Null(n);
    assert MoreOr(text, n, None) == Null(n) && MoreSeq(text, n, None) == Null(n);
    assert ReadSeq(text, 0) == Null(n);
    assert ReadExpr(text, 0) == Null(n);
  }

  // ---- texts that the serializer never prints ----

  lemma NameIsWritten(pre: string, name: string, post: string)
    requires Blank(pre) && Plain(name) && Blank(post)
    ensures var f := Name(pre, name, post);
            Valid(f) && Level(f) == 0 && Tree(f) == AtomExpr(name) && Write(f) == pre + name + post
  {
  }

  /** A comma without a number after it, or with a star, is no upper limit. */
  lemma OpenCountIsRead(name: string, n: nat)
    requires Plain(name)
    ensures ReadText(name + "{" + Decimal(n) + ",*}")
         == Read(CountExpr(AtomExpr(name), n, -1), |name| + |Decimal(n)| + 4)
    ensures ReadText(name + "{" + Decimal(n) + ",}")
         == Read(CountExpr(AtomExpr(name), n, -1), |name| + |Decimal(n)| + 3)
  {
    DecimalValue(n);
    OpenCount(name, Decimal(n), n, true);
    OpenCount(name, Decimal(n), n, false);
  }

  lemma OpenCount(name: string, d: string, n: nat, star: bool)
    requires Plain(name) && Numeral(d) && Value(d, 0) == n
    ensures var text := name + "{" + d + if star then ",*}" else ",}";
            ReadText(text) == Read(CountExpr(AtomExpr(name), n, -1), |text|)
  {
    var part, q := Name("", name, ""), AtLeast("", d, "", "", star, "");
    NameIsWritten("", name, "");
    OpenCountWritten(name, d, star);
    WrittenIsRead(Counted(part, q, ""));
  }

  lemma OpenCountWritten(name: string, d: string, star: bool)
    ensures "" + name + "" + ("{" + ("" + d) + ("" + ",") + (("" + if star then "*" else "") + ("" + "}"))) + ""
         == name + "{" + d + if star then ",*}" else ",}"
  {
    var end := ("" + ",") + (("" + if star then "*" else "") + ("" + "}"));
    assert end == if star then ",*}" else ",}";
    assert "" + d == d && "" + name + "" == name;
    assert "{" + d + ("" + ",") + (("" + if star then "*" else "") + ("" + "}")) == "{" + d + end;
    assert name + ("{" + d + end) + "" == name + "{" + d + end;
  }

  /** Without brackets, parts are grouped from the left, and alternatives bind closer than sequences. */
  lemma GroupedFromTheLeft(f: Form, g: Form, h: Form)
    requires Valid(f) && Level(f) == 0 && Valid(g) && Level(g) == 0 && Valid(h) && Level(h) == 0
    ensures var s := Write(f) + "|" + Write(g) + "|" + Write(h);
            ReadText(s) == Read(OrExpr(OrExpr(Tree(f), Tree(g)), Tree(h)), |s|)
    ensures var s := Write(f) + "," + Write(g) + "," + Write(h);
            ReadText(s) == Read(SeqExpr(SeqExpr(Tree(f), Tree(g)), Tree(h)), |s|)
    ensures var s := Write(f) + "|" + Write(g) + "," + Write(h);
            ReadText(s) == Read(SeqExpr(OrExpr(Tree(f), Tree(g)), Tree(h)), |s|)
    ensures var s := Write(f) + "," + (Write(g) + "|" + Write(h));
            ReadText(s) == Read(SeqExpr(Tree(f), OrExpr(Tree(g), Tree(h))), |s|)
  {
    WrittenIsRead(Either(Either(f, g), h));
    WrittenIsRead(Then(Then(f, g), h));
    WrittenIsRead(Then(Either(f, g), h));
    WrittenIsRead(Then(f, Either(g, h)));
  }

  lemma ThreeNames(a: string, b: string, c: string)
    requires Plain(a) && Plain(b) && Plain(c)
    ensures var s := a + " | " + b + " | " + c;
            ReadText(s) == Read(OrExpr(OrExpr(AtomExpr(a), AtomExpr(b)), AtomExpr(c)), |s|)
    ensures var s := a + " , " + b + " , " + c;
            ReadText(s) == Read(SeqExpr(SeqExpr(AtomExpr(a), AtomExpr(b)), AtomExpr(c)), |s|)
  {
    NameIsWritten("", a, " ");
    NameIsWritten(" ", b, " ");
    NameIsWritten(" ", c, "");
    GroupedFromTheLeft(Name("", a, " "), Name(" ", b, " "), Name(" ", c, ""));
    SpacedOut(a, b, c, '|');
    SpacedOut(a, b, c, ',');
  }

  lemma SpacedOut(a: string, b: string, c: string, sep: char)
    ensures ("" + a + " ") + [sep] + (" " + b + " ") + [sep] + (" " + c + "")
         == a + [' ', sep, ' '] + b + [' ', sep, ' '] + c
  {
    assert "" + a + " " == a + " " && " " + c + "" == " " + c;
    assert (a + " ") + [sep] + (" " + b + " ") == a + [' ', sep, ' '] + b + " ";
    assert a + [' ', sep, ' '] + b + " " + [sep] + (" " + c) == a + [' ', sep, ' '] + b + [' ', sep, ' '] + c;
  }
}
