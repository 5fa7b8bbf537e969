/** Reading back what was printed: exactly which expressions survive. */
module RoundTrip {
  import opened Results
  import opened Languages
  import opened Printing
  import opened Parsing

  /** str stands in the text at pos. */
  predicate At(text: string, pos: nat, str: string) {
    pos + |str| <= |text| && forall i :: 0 <= i < |str| ==> str[i] == text[pos + i]
  }

  lemma AtSplit(text: string, pos: nat, a: string, b: string)
    requires At(text, pos, a + b)
    ensures At(text, pos, a) && At(text, pos + |a|, b)
  {
    forall i | 0 <= i < |a|
      ensures a[i] == text[pos + i]
    {
      assert (a + b)[i] == a[i];
    }
    forall i | 0 <= i < |b|
      ensures b[i] == text[pos + |a| + i]
    {
      assert (a + b)[|a| + i] == b[i];
    }
  }

  lemma AtSplit3(text: string, pos: nat, a: string, b: string, c: string)
    requires At(text, pos, a + b + c)
    ensures At(text, pos, a) && At(text, pos + |a|, b) && At(text, pos + |a| + |b|, c)
  {
    AtSplit(text, pos, a + b, c);
    AtSplit(text, pos, a, b);
  }

  lemma AtHead(text: string, pos: nat, str: string)
    requires At(text, pos, str) && str != ""
    ensures Cur(text, pos) == str[0]
  {
  }

  // ---- numbers ----

  predicate AllDigits(str: string) {
    str == "" || (IsDigit(str[0]) && AllDigits(str[1..]))
  }

  function Value(str: string, value: nat): nat
    requires AllDigits(str)
  {
    if str == "" then value else Value(str[1..], value * 10 + (str[0] as int - '0' as int))
  }

  lemma {:induction false} ValueSnoc(str: string, c: char, value: nat)
    requires IsDigit(c) && AllDigits(str)
    ensures AllDigits(str + [c])
    ensures Value(str + [c], value) == Value(str, value) * 10 + (c as int - '0' as int)
  {
    if str != "" {
      assert (str + [c])[1..] == str[1..] + [c];
      ValueSnoc(str[1..], c, value * 10 + (str[0] as int - '0' as int));
    } else {
      assert (str + [c])[1..] == "";
    }
  }

  lemma {:induction false} DecimalValue(n: nat)
    ensures Decimal(n) != "" && AllDigits(Decimal(n))
    ensures Value(Decimal(n), 0) == n
    ensures Decimal(n) == (if n < 10 then "" else Decimal(n / 10)) + ["0123456789"[n % 10]]
  {
    if n < 10 {
      assert Decimal(n)[1..] == "";
    } else {
      DecimalValue(n / 10);
      ValueSnoc(Decimal(n / 10), Digit(n % 10), 0);
    }
  }

  lemma {:induction false} ReadsDigits(text: string, pos: nat, str: string, value: nat)
    requires AllDigits(str)
    requires At(text, pos, str) && !IsDigit(Cur(text, pos + |str|))
    ensures ReadDigits(text, pos, value) == (Value(str, value), pos + |str|)
    decreases |str|
  {
    if str != "" {
      AtHead(text, pos, str);
      assert str == [str[0]] + str[1..];
      AtSplit(text, pos, [str[0]], str[1..]);
      ReadsDigits(text, pos + 1, str[1..], value * 10 + (str[0] as int - '0' as int));
    }
  }

  lemma ReadsNumber(text: string, pos: nat, n: nat)
    requires At(text, pos, Decimal(n)) && !IsDigit(Cur(text, pos + |Decimal(n)|))
    ensures ReadNumber(text, pos) == (n, pos + |Decimal(n)|)
  {
    DecimalValue(n);
    AtHead(text, pos, Decimal(n));
    ReadsDigits(text, pos, Decimal(n), 0);
  }

  // ---- quantifiers ----

  /** {n,inf}, which the parser refuses, is printed for every minimum but 0 and 1. */
  predicate PrintableCount(min: int, max: int) {
    max >= 0 || min <= 1
  }

  lemma ReadsExactly(text: string, pos: nat, e: Expr, n: nat)
    requires At(text, pos, "{" + Decimal(n) + "}")
    ensures ReadQuantifier(text, pos, Some(e)) == Read(CountExpr(e, n, n), Skip(text, pos + |Decimal(n)| + 2))
  {
    var d := Decimal(n);
    AtSplit3(text, pos, "{", d, "}");
    AtHead(text, pos, "{");
    AtHead(text, pos + 1 + |d|, "}");
    ReadsNumber(text, pos + 1, n);
  }

  /** The opening of {n, up to the comma. */
  lemma ReadsOpening(text: string, pos: nat, n: nat, rest: string)
    requires At(text, pos, "{" + Decimal(n) + "," + rest)
    ensures var p := pos + 1 + |Decimal(n)|;
      && Cur(text, pos) == '{' && ReadNumber(text, pos + 1) == (n, p)
      && Cur(text, p) == ',' && At(text, p + 1, rest)
  {
    var d := Decimal(n);
    AtSplit(text, pos, "{" + d + ",", rest);
    AtSplit3(text, pos, "{", d, ",");
    AtHead(text, pos, "{");
    AtHead(text, pos + 1 + |d|, ",");
    ReadsNumber(text, pos + 1, n);
  }

  /** The second number and the closing brace. */
  lemma ReadsClosing(text: string, pos: nat, n: nat)
    requires At(text, pos, Decimal(n) + "}")
    ensures var p := pos + |Decimal(n)|;
      ReadNumber(text, pos) == (n, p) && Cur(text, p) == '}' && p + 1 <= |text|
  {
    var d := Decimal(n);
    AtSplit(text, pos, d, "}");
    AtHead(text, pos + |d|, "}");
    ReadsNumber(text, pos, n);
  }

  lemma ReadsRange(text: string, pos: nat, e: Expr, min: nat, max: nat)
    requires min <= max
    requires At(text, pos, "{" + Decimal(min) + "," + (Decimal(max) + "}"))
    ensures ReadQuantifier(text, pos, Some(e))
         == Read(CountExpr(e, min, max), Skip(text, pos + |Decimal(min)| + |Decimal(max)| + 3))
  {
    var p := pos + |Decimal(min)| + 2;
    ReadsOpening(text, pos, min, Decimal(max) + "}");
    ReadsClosing(text, p, max);
    RangeIsRead(text, pos, e, min, max, p - 1, p + |Decimal(max)|);
  }

  /** A range whose numbers end at q and z. */
  lemma RangeIsRead(text: string, pos: nat, e: Expr, min: nat, max: nat, q: nat, z: nat)
    requires pos < q < z < |text| && min <= max && text[pos] == '{' && text[q] == ',' && text[z] == '}'
    requires ReadNumber(text, pos + 1) == (min, q) && ReadNumber(text, q + 1) == (max, z)
    ensures ReadQuantifier(text, pos, Some(e)) == Read(CountExpr(e, min, max), Skip(text, z + 1))
  {
    assert Skip(text, q) == q && Skip(text, z) == z;
  }

  lemma ReadsSuffix(text: string, pos: nat, e: Expr, min: int, max: int)
    requires WellFormedCount(min, max) && PrintableCount(min, max)
    requires At(text, pos, Suffix(min, max))
    ensures ReadQuantifier(text, pos, Some(e)) == Read(CountExpr(e, min, max), Skip(text, pos + |Suffix(min, max)|))
  {
    AtHead(text, pos, Suffix(min, max));
    if max == min {
      ReadsExactly(text, pos, e, min);
    } else if max >= 0 && !(min == 0 && max == 1) {
      assert "{" + Decimal(min) + "," + Decimal(max) + "}" == "{" + Decimal(min) + "," + (Decimal(max) + "}");
      ReadsRange(text, pos, e, min, max);
    }
  }

  predicate StartsQuantifier(c: char) {
    c == '?' || c == '*' || c == '+' || c == '{'
  }

  /** The end of the text or of a bracket. */
  predicate Stops(c: char) {
    c == '\0' || c == ')'
  }

  /** The characters at which a reader gives up and no caller can go on. */
  predicate JamsAt(c: char) {
    c == 'i' || StartsQuantifier(c)
  }

  ghost predicate Jammed(text: string, r: Parsed) {
    !r.Outside? && JamsAt(Cur(text, r.next))
  }

  lemma InfinityJams(text: string, pos: nat, e: Expr, min: int)
    requires min >= 2
    requires At(text, pos, Suffix(min, -1))
    ensures ReadQuantifier(text, pos, Some(e)).Null? && Jammed(text, ReadQuantifier(text, pos, Some(e)))
  {
    var p := pos + |Decimal(min)| + 2;
    assert Suffix(min, -1) == "{" + Decimal(min) + "," + "inf}";
    ReadsOpening(text, pos, min, "inf}");
    AtHead(text, p, "inf}");
  }

  // ---- expressions ----

  /** No count stands directly on a count, and none is printed as {n,inf}. */
  predicate CountsPrint(e: Expr) {
    match e
    case OrExpr(l, r) => CountsPrint(l) && CountsPrint(r)
    case SeqExpr(l, r) => CountsPrint(l) && CountsPrint(r)
    case CountExpr(b, min, max) => CountsPrint(b) && !b.CountExpr? && PrintableCount(min, max)
    case _ => true
  }

  /** The two static nodes are printed by name and read back as atoms of that name. */
  function Named(e: Expr): Expr {
    match e
    case EmptyExpr => AtomExpr("empty")
    case ForbidExpr => AtomExpr("forbidden")
    case AtomExpr(_) => e
    case OrExpr(l, r) => OrExpr(Named(l), Named(r))
    case SeqExpr(l, r) => SeqExpr(Named(l), Named(r))
    case CountExpr(b, min, max) => CountExpr(Named(b), min, max)
  }

  /** What may follow a part: the end, a bracket, a separator, and, after a primary, a quantifier. */
  predicate Follows(text: string, end: nat, quantifier: bool)
    requires end <= |text|
  {
    var c := Cur(text, Skip(text, end));
    Stops(c) || c == ',' || c == '|' || (quantifier && StartsQuantifier(c))
  }

  lemma {:induction false} NameEndsAt(text: string, pos: nat, a: string)
    requires CleanName(a) && At(text, pos, a) && IsDelimiter(Cur(text, pos + |a|))
    ensures NameEnd(text, pos) == pos + |a| && text[pos..pos + |a|] == a
    decreases |a|
  {
    if a != "" {
      AtHead(text, pos, a);
      assert a == [a[0]] + a[1..];
      AtSplit(text, pos, [a[0]], a[1..]);
      assert CleanName(a[1..]);
      NameEndsAt(text, pos + 1, a[1..]);
    }
  }

  lemma ReadsName(text: string, pos: nat, a: string)
    requires CleanName(a) && At(text, pos, a) && Follows(text, pos + |a|, true)
    ensures ReadPrimary(text, pos) == Found(Some(AtomExpr(a)), Skip(text, pos + |a|))
  {
    if a == "" {
      NameEndsAt(text, Skip(text, pos), a);
    } else {
      AtHead(text, pos, a);
      NameEndsAt(text, pos, a);
    }
  }

  /** Leading blanks make no difference. */
  lemma LeadingBlank(text: string, pos: nat)
    requires pos < |text| && IsBlank(text[pos])
    ensures ReadOr(text, pos) == ReadOr(text, pos + 1)
    ensures ReadSeq(text, pos) == ReadSeq(text, pos + 1)
  {
    assert ReadPrimary(text, pos) == ReadPrimary(text, pos + 1);
  }

  /** Nothing more is read after a part unless its separator follows. */
  lemma SeqEnds(text: string, pos: nat)
    requires pos <= |text| && !ReadOr(text, pos).Outside?
    requires var c := Cur(text, ReadOr(text, pos).next); !IsBlank(c) && c != '|'
    ensures ReadSeq(text, pos) == ReadOr(text, pos)
  {
  }

  lemma ExprEnds(text: string, pos: nat)
    requires pos <= |text| && !ReadSeq(text, pos).Outside?
    requires var c := Cur(text, ReadSeq(text, pos).next); !IsBlank(c) && c != ','
    ensures ReadExpr(text, pos) == ReadSeq(text, pos)
  {
  }

  lemma OrContinues(text: string, pos: nat, p: nat, l: Expr)
    requires pos <= |text| && p < |text| && ReadOr(text, pos) == Read(l, p) && text[p] == '|'
    requires var r := ReadOr(text, p + 1); !r.Outside? && !IsBlank(Cur(text, r.next)) && Cur(text, r.next) != '|'
    ensures var r := ReadOr(text, p + 1);
      ReadSeq(text, pos) == if r.Read? then Read(OrExpr(l, r.expr), r.next) else r
  {
    var r := ReadOr(text, p + 1);
    assert Skip(text, p) == p;
    assert ReadSeq(text, pos) == MoreOr(text, p, Some(l));
    if r.Read? {
      assert MoreOr(text, r.next, Some(OrExpr(l, r.expr))) == Read(OrExpr(l, r.expr), r.next);
    }
  }

  lemma SeqContinues(text: string, pos: nat, p: nat, l: Expr)
    requires pos <= |text| && p < |text| && ReadSeq(text, pos) == Read(l, p) && text[p] == ','
    requires var r := ReadSeq(text, p + 1); !r.Outside? && !IsBlank(Cur(text, r.next)) && Cur(text, r.next) != ','
    ensures var r := ReadSeq(text, p + 1);
      ReadExpr(text, pos) == if r.Read? then Read(SeqExpr(l, r.expr), r.next) else r
  {
    var r := ReadSeq(text, p + 1);
    assert Skip(text, p) == p;
    assert ReadExpr(text, pos) == MoreSeq(text, p, Some(l));
    if r.Read? {
      assert MoreSeq(text, r.next, Some(SeqExpr(l, r.expr))) == Read(SeqExpr(l, r.expr), r.next);
    }
  }

  ghost predicate Printable(e: Expr) {
    CleanNames(e) && CountsWellFormed(e)
  }

  lemma ReadsBracket(text: string, pos: nat, p: string)
    requires At(text, pos, "(" + p + ")")
    ensures pos + 1 + |p| < |text| && text[pos] == '(' && At(text, pos + 1, p) && text[pos + 1 + |p|] == ')'
    ensures Skip(text, pos + 1 + |p|) == pos + 1 + |p|
  {
    AtSplit3(text, pos, "(", p, ")");
    AtHead(text, pos, "(");
    AtHead(text, pos + 1 + |p|, ")");
  }

  /** What the reader of brackets makes of their contents. */
  lemma BracketsRead(text: string, pos: nat, inner: Parsed)
    requires pos < |text| && text[pos] == '(' && inner == ReadExpr(text, pos + 1)
    requires inner.Read? && Cur(text, inner.next) == ')'
    ensures ReadPrimary(text, pos) == Found(Some(inner.expr), Skip(text, inner.next + 1))
  {
    assert Skip(text, pos) == pos && Skip(text, inner.next) == inner.next;
  }

  lemma BracketsJam(text: string, pos: nat, inner: Parsed)
    requires pos < |text| && text[pos] == '(' && inner == ReadExpr(text, pos + 1) && Jammed(text, inner)
    ensures ReadPrimary(text, pos) == Refused(inner.next)
  {
    assert Skip(text, pos) == pos && Skip(text, inner.next) == inner.next;
  }

  /** What the reading of an expression that ends at `end` must come to. */
  ghost predicate IsReadAs(r: Parsed, e: Expr, text: string, end: nat)
    requires end <= |text|
  {
    if CountsPrint(e) then r == Read(Named(e), Skip(text, end)) else Jammed(text, r)
  }

  ghost predicate PrimaryIsRead(e: Expr, text: string, pos: nat, end: nat)
    requires pos <= end <= |text|
  {
    if CountsPrint(e)
    then ReadPrimary(text, pos) == Found(Some(Named(e)), Skip(text, end))
    else ReadPrimary(text, pos).Refused? && JamsAt(Cur(text, ReadPrimary(text, pos).next))
  }

  lemma BracketIsRead(e: Expr, text: string, pos: nat, end: nat)
    requires pos < end < |text| && text[pos] == '(' && text[end] == ')'
    requires IsReadAs(ReadExpr(text, pos + 1), e, text, end)
    ensures PrimaryIsRead(e, text, pos, end + 1)
  {
    assert Skip(text, end) == end;
    if CountsPrint(e) {
      BracketsRead(text, pos, ReadExpr(text, pos + 1));
    } else {
      BracketsJam(text, pos, ReadExpr(text, pos + 1));
    }
  }

  /** An atom or a bracketed expression, up to its quantifier. */
  lemma {:induction false} ReadsPrimary(e: Expr, text: string, pos: nat)
    requires Printable(e) && !e.CountExpr?
    requires At(text, pos, Part(e)) && Follows(text, pos + |Part(e)|, true)
    ensures PrimaryIsRead(e, text, pos, pos + |Part(e)|)
    decreases e, 1
  {
    if Compound(e) {
      ReadsBracket(text, pos, Print(e));
      ReadsWhole(e, text, pos + 1);
      BracketIsRead(e, text, pos, pos + 1 + |Print(e)|);
    } else {
      ReadsName(text, pos, Print(e));
    }
  }

  lemma WithoutQuantifier(e: Expr, text: string, pos: nat, end: nat)
    requires pos <= end <= |text| && PrimaryIsRead(e, text, pos, end) && Follows(text, end, false)
    ensures IsReadAs(ReadOr(text, pos), e, text, end)
  {
  }

  /** A part with its own quantifier, if it has one. */
  lemma {:induction false} ReadsPart(e: Expr, text: string, pos: nat)
    requires Printable(e)
    requires At(text, pos, Part(e)) && Follows(text, pos + |Part(e)|, e.CountExpr?)
    ensures IsReadAs(ReadOr(text, pos), e, text, pos + |Part(e)|)
    decreases e, 2
  {
    if e.CountExpr? {
      ReadsCount(e, text, pos);
    } else {
      ReadsPrimary(e, text, pos);
      WithoutQuantifier(e, text, pos, pos + |Part(e)|);
    }
  }

  lemma SuffixFollows(text: string, pos: nat, min: int, max: int)
    requires WellFormedCount(min, max) && At(text, pos, Suffix(min, max))
    ensures StartsQuantifier(Cur(text, pos)) && Skip(text, pos) == pos && Follows(text, pos, true)
  {
    AtHead(text, pos, Suffix(min, max));
  }

  lemma {:induction false} ReadsCount(e: Expr, text: string, pos: nat)
    requires Printable(e) && e.CountExpr?
    requires At(text, pos, Part(e)) && Follows(text, pos + |Part(e)|, true)
    ensures IsReadAs(ReadOr(text, pos), e, text, pos + |Part(e)|)
    decreases e, 1
  {
    CountSplits(e, text, pos);
    ReadsBody(e, text, pos, pos + |Part(e.body)|);
  }

  lemma CountSplits(e: Expr, text: string, pos: nat)
    requires Printable(e) && e.CountExpr? && At(text, pos, Part(e))
    ensures At(text, pos, Part(e.body)) && At(text, pos + |Part(e.body)|, Suffix(e.min, e.max))
    ensures |Part(e)| == |Part(e.body)| + |Suffix(e.min, e.max)|
  {
    assert Part(e) == Part(e.body) + Suffix(e.min, e.max);
    AtSplit(text, pos, Part(e.body), Suffix(e.min, e.max));
  }

  lemma {:induction false} ReadsBody(e: Expr, text: string, pos: nat, q: nat)
    requires Printable(e) && e.CountExpr? && q == pos + |Part(e.body)|
    requires At(text, pos, Part(e.body)) && At(text, q, Suffix(e.min, e.max))
    ensures IsReadAs(ReadOr(text, pos), e, text, q + |Suffix(e.min, e.max)|)
    decreases e, 0
  {
    SuffixFollows(text, q, e.min, e.max);
    if e.body.CountExpr? {
      ReadsPart(e.body, text, pos);
    } else {
      ReadsPrimary(e.body, text, pos);
      SuffixIsRead(e.body, e.min, e.max, text, pos, q);
    }
  }

  lemma SuffixIsRead(b: Expr, min: int, max: int, text: string, pos: nat, q: nat)
    requires Printable(b) && WellFormedCount(min, max) && !b.CountExpr? && pos <= q <= |text|
    requires PrimaryIsRead(b, text, pos, q) && At(text, q, Suffix(min, max)) && Skip(text, q) == q
    ensures IsReadAs(ReadOr(text, pos), CountExpr(b, min, max), text, q + |Suffix(min, max)|)
  {
    if CountsPrint(b) {
      if PrintableCount(min, max) {
        ReadsSuffix(text, q, Named(b), min, max);
      } else {
        InfinityJams(text, q, Named(b), min);
      }
    }
  }

  /** Two parts with a separator between blanks. */
  lemma SplitPair(text: string, pos: nat, a: string, c: char, b: string)
    requires c == ',' || c == '|'
    requires At(text, pos, a + [' ', c, ' '] + b)
    ensures At(text, pos, a) && At(text, pos + |a| + 3, b)
    ensures Skip(text, pos + |a|) == pos + |a| + 1 && Cur(text, pos + |a| + 1) == c
    ensures Cur(text, pos + |a| + 2) == ' '
  {
    var sep := [' ', c, ' '];
    AtSplit3(text, pos, a, sep, b);
    assert sep[0] == text[pos + |a| + 0] && sep[1] == text[pos + |a| + 1] && sep[2] == text[pos + |a| + 2];
  }

  /** The reader of a part stops at the end, at a separator, or where nothing goes on. */
  lemma ReadingEnds(r: Parsed, e: Expr, text: string, end: nat)
    requires end <= |text| && IsReadAs(r, e, text, end)
    ensures !r.Outside? && ((r.Read? && r.next == Skip(text, end)) || JamsAt(Cur(text, r.next)))
    ensures !IsBlank(Cur(text, r.next))
  {
  }

  /** After a part that no | follows, ReadSeq stops where ReadOr does. */
  lemma PartAlone(e: Expr, text: string, pos: nat, end: nat)
    requires pos <= end <= |text| && IsReadAs(ReadOr(text, pos), e, text, end) && Cur(text, Skip(text, end)) != '|'
    ensures ReadSeq(text, pos) == ReadOr(text, pos)
  {
    SeqEnds(text, pos);
  }

  lemma PartAfterBlank(e: Expr, text: string, pos: nat, end: nat)
    requires 0 < pos <= end <= |text| && text[pos - 1] == ' '
    requires IsReadAs(ReadOr(text, pos), e, text, end) && Cur(text, Skip(text, end)) != '|'
    ensures ReadSeq(text, pos - 1) == ReadOr(text, pos)
  {
    LeadingBlank(text, pos - 1);
    PartAlone(e, text, pos, end);
  }

  lemma SequenceIsRead(l: Expr, r: Expr, text: string, pos: nat, p: nat, end: nat)
    requires pos <= p && p + 3 <= end <= |text| && Skip(text, p) == p + 1 && text[p + 1] == ',' && text[p + 2] == ' '
    requires Stops(Cur(text, Skip(text, end)))
    requires IsReadAs(ReadOr(text, pos), l, text, p) && IsReadAs(ReadOr(text, p + 3), r, text, end)
    ensures IsReadAs(ReadExpr(text, pos), SeqExpr(l, r), text, end)
  {
    PartAlone(l, text, pos, p);
    if CountsPrint(l) {
      PartAfterBlank(r, text, p + 3, end);
      SequenceGoesOn(l, r, text, pos, p + 1, end);
    } else {
      SequenceJams(l, r, text, pos, p, end);
    }
  }

  lemma SequenceJams(l: Expr, r: Expr, text: string, pos: nat, p: nat, end: nat)
    requires pos <= p <= end <= |text| && !CountsPrint(l) && IsReadAs(ReadSeq(text, pos), l, text, p)
    ensures IsReadAs(ReadExpr(text, pos), SeqExpr(l, r), text, end)
  {
    ExprEnds(text, pos);
  }

  lemma SequenceGoesOn(l: Expr, r: Expr, text: string, pos: nat, p: nat, end: nat)
    requires pos <= p < |text| && text[p] == ',' && end <= |text| && Stops(Cur(text, Skip(text, end)))
    requires CountsPrint(l) && ReadSeq(text, pos) == Read(Named(l), p) && IsReadAs(ReadSeq(text, p + 1), r, text, end)
    ensures IsReadAs(ReadExpr(text, pos), SeqExpr(l, r), text, end)
  {
    ReadingEnds(ReadSeq(text, p + 1), r, text, end);
    SeqContinues(text, pos, p, Named(l));
    BothAreRead(SeqExpr(l, r), ReadSeq(text, p + 1), ReadExpr(text, pos), text, end);
  }

  lemma AlternativeIsRead(l: Expr, r: Expr, text: string, pos: nat, p: nat, end: nat)
    requires pos <= p && p + 3 <= end <= |text| && Skip(text, p) == p + 1 && text[p + 1] == '|' && text[p + 2] == ' '
    requires Stops(Cur(text, Skip(text, end)))
    requires IsReadAs(ReadOr(text, pos), l, text, p) && IsReadAs(ReadOr(text, p + 3), r, text, end)
    ensures IsReadAs(ReadExpr(text, pos), OrExpr(l, r), text, end)
  {
    if CountsPrint(l) {
      LeadingBlank(text, p + 2);
      AlternativeGoesOn(l, r, text, pos, p + 1, end);
    } else {
      AlternativeJams(l, r, text, pos, p, end);
    }
    WholeIsRead(OrExpr(l, r), text, pos, end);
  }

  lemma AlternativeJams(l: Expr, r: Expr, text: string, pos: nat, p: nat, end: nat)
    requires pos <= p <= end <= |text| && !CountsPrint(l) && IsReadAs(ReadOr(text, pos), l, text, p)
    ensures IsReadAs(ReadSeq(text, pos), OrExpr(l, r), text, end)
  {
    SeqEnds(text, pos);
  }

  lemma WholeIsRead(e: Expr, text: string, pos: nat, end: nat)
    requires pos <= end <= |text| && Stops(Cur(text, Skip(text, end))) && IsReadAs(ReadSeq(text, pos), e, text, end)
    ensures IsReadAs(ReadExpr(text, pos), e, text, end)
  {
    ExprEnds(text, pos);
  }

  lemma AlternativeGoesOn(l: Expr, r: Expr, text: string, pos: nat, p: nat, end: nat)
    requires pos <= p < |text| && text[p] == '|' && end <= |text| && Stops(Cur(text, Skip(text, end)))
    requires CountsPrint(l) && ReadOr(text, pos) == Read(Named(l), p) && IsReadAs(ReadOr(text, p + 1), r, text, end)
    ensures IsReadAs(ReadSeq(text, pos), OrExpr(l, r), text, end)
  {
    ReadingEnds(ReadOr(text, p + 1), r, text, end);
    OrContinues(text, pos, p, Named(l));
    BothAreRead(OrExpr(l, r), ReadOr(text, p + 1), ReadSeq(text, pos), text, end);
  }

  /** With the left part read, the pair is read if the right part is, and stops with it if not. */
  lemma BothAreRead(e: Expr, right: Parsed, whole: Parsed, text: string, end: nat)
    requires Compound(e) && CountsPrint(e.left) && end <= |text| && IsReadAs(right, e.right, text, end)
    requires !right.Read? ==> whole == right
    requires right.Read? && e.SeqExpr? ==> whole == Read(SeqExpr(Named(e.left), right.expr), right.next)
    requires right.Read? && e.OrExpr? ==> whole == Read(OrExpr(Named(e.left), right.expr), right.next)
    ensures IsReadAs(whole, e, text, end)
  {
  }

  /** The text of an expression up to the end or a closing bracket. */
  lemma {:induction false} ReadsWhole(e: Expr, text: string, pos: nat)
    requires Printable(e)
    requires At(text, pos, Print(e)) && Stops(Cur(text, Skip(text, pos + |Print(e)|)))
    ensures IsReadAs(ReadExpr(text, pos), e, text, pos + |Print(e)|)
    decreases e, if Compound(e) then 0 else 3, 1
  {
    if Compound(e) {
      PairSplits(e, text, pos);
      ReadsPair(e, text, pos, pos + |Part(e.left)|, pos + |Print(e)|);
    } else {
      ReadsPart(e, text, pos);
      LoneIsRead(e, text, pos, pos + |Print(e)|);
    }
  }

  /** p is the end of the left part, end that of the pair. */
  ghost predicate PairStands(e: Expr, text: string, pos: nat, p: nat, end: nat)
    requires Printable(e) && Compound(e)
  {
    && p == pos + |Part(e.left)| && end == p + 3 + |Part(e.right)| && end <= |text|
    && At(text, pos, Part(e.left)) && At(text, p + 3, Part(e.right))
    && Skip(text, p) == p + 1 && text[p + 1] == (if e.SeqExpr? then ',' else '|') && text[p + 2] == ' '
  }

  lemma PairSplits(e: Expr, text: string, pos: nat)
    requires Printable(e) && Compound(e) && At(text, pos, Print(e))
    ensures PairStands(e, text, pos, pos + |Part(e.left)|, pos + |Print(e)|)
  {
    var a, c, b := Part(e.left), if e.SeqExpr? then ',' else '|', Part(e.right);
    assert Print(e) == a + [' ', c, ' '] + b;
    SplitPair(text, pos, a, c, b);
  }

  lemma {:induction false} ReadsPair(e: Expr, text: string, pos: nat, p: nat, end: nat)
    requires Printable(e) && Compound(e) && PairStands(e, text, pos, p, end)
    requires Stops(Cur(text, Skip(text, end)))
    ensures IsReadAs(ReadExpr(text, pos), e, text, end)
    decreases e, 0, 0
  {
    PartEnds(e, text, pos, p, end);
    ReadsPart(e.left, text, pos);
    ReadsPart(e.right, text, p + 3);
    PairIsRead(e, text, pos, p, end);
  }

  /** The separator, or what follows the pair, may follow its parts. */
  lemma PartEnds(e: Expr, text: string, pos: nat, p: nat, end: nat)
    requires Printable(e) && Compound(e) && PairStands(e, text, pos, p, end) && Stops(Cur(text, Skip(text, end)))
    ensures Follows(text, p, e.left.CountExpr?) && Follows(text, end, e.right.CountExpr?)
    ensures Printable(e.left) && Printable(e.right)
  {
  }

  lemma LoneIsRead(e: Expr, text: string, pos: nat, end: nat)
    requires pos <= end <= |text| && Stops(Cur(text, Skip(text, end)))
    requires IsReadAs(ReadOr(text, pos), e, text, end)
    ensures IsReadAs(ReadExpr(text, pos), e, text, end)
  {
    SeqEnds(text, pos);
    ExprEnds(text, pos);
  }

  lemma PairIsRead(e: Expr, text: string, pos: nat, p: nat, end: nat)
    requires Compound(e) && pos <= p && p + 3 <= end <= |text|
    requires Skip(text, p) == p + 1 && text[p + 1] == (if e.SeqExpr? then ',' else '|') && text[p + 2] == ' '
    requires Stops(Cur(text, Skip(text, end)))
    requires IsReadAs(ReadOr(text, pos), e.left, text, p) && IsReadAs(ReadOr(text, p + 3), e.right, text, end)
    ensures IsReadAs(ReadExpr(text, pos), e, text, end)
  {
    if e.SeqExpr? {
      SequenceIsRead(e.left, e.right, text, pos, p, end);
    } else {
      AlternativeIsRead(e.left, e.right, text, pos, p, end);
    }
  }

  /** Every expression with clean names: what its printed form is read as. */
  lemma PrintedIsReadAs(e: Expr)
    requires Printable(e)
    ensures CountsPrint(e) ==> ReadText(Print(e)) == Read(Named(e), |Print(e)|)
    ensures !CountsPrint(e) ==> ReadText(Print(e)).Null?
  {
    var text := Print(e);
    ReadsWhole(e, text, 0);
    assert Skip(text, |text|) == |text|;
    if !CountsPrint(e) {
      var r := ReadExpr(text, 0);
      assert Skip(text, r.next) == r.next;
    }
  }

  /** Only names are printed and read back. */
  predicate NoStatics(e: Expr) {
    match e
    case ForbidExpr => false
    case EmptyExpr => false
    case AtomExpr(_) => true
    case OrExpr(l, r) => NoStatics(l) && NoStatics(r)
    case SeqExpr(l, r) => NoStatics(l) && NoStatics(r)
    case CountExpr(b, _, _) => NoStatics(b)
  }

  lemma {:induction false} NamedIsSame(e: Expr)
    ensures Named(e) == e <==> NoStatics(e)
  {
    match e
    case OrExpr(l, r) => NamedIsSame(l); NamedIsSame(r);
    case SeqExpr(l, r) => NamedIsSame(l); NamedIsSame(r);
    case CountExpr(b, _, _) => NamedIsSame(b);
    case _ =>
  }

  /** Parsing the dump gives the expression back, to the end of the text, exactly in these cases. */
  lemma RoundTrips(e: Expr)
    requires CountsWellFormed(e)
    ensures ReadText(Print(e)) == Read(e, |Print(e)|) <==> CleanNames(e) && NoStatics(e) && CountsPrint(e)
  {
    NamedIsSame(e);
    ExprReadsClean(Print(e), 0);
    if CleanNames(e) {
      PrintedIsReadAs(e);
    }
  }
}
