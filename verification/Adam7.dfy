/** The geometry of the seven interlace passes. */
module Adam7 {
  /** The first column of a pass, and the distance to the next one. */
  function PassStart(pass: nat): nat
    requires pass < 7
  {
    match pass case 0 => 0 case 1 => 4 case 2 => 0 case 3 => 2 case 4 => 0 case 5 => 1 case _ => 0
  }

  function PassInc(pass: nat): nat
    requires pass < 7
  {
    match pass case 0 => 8 case 1 => 8 case 2 => 4 case 3 => 4 case 4 => 2 case 5 => 2 case _ => 1
  }

  /** The same for rows. */
  function PassYStart(pass: nat): nat
    requires pass < 7
  {
    match pass case 0 => 0 case 1 => 0 case 2 => 4 case 3 => 0 case 4 => 2 case 5 => 0 case _ => 1
  }

  function PassYInc(pass: nat): nat
    requires pass < 7
  {
    match pass case 0 => 8 case 1 => 8 case 2 => 8 case 3 => 4 case 4 => 4 case 5 => 2 case _ => 2
  }

  /** How many of the places start, start + inc, ... are below size. */
  function Count(size: nat, start: nat, inc: nat): nat
    requires inc > 0
    decreases size - start
  {
    if start >= size then 0 else 1 + Count(size, start + inc, inc)
  }

  /** The division that the program uses for it. */
  function Quotient(size: nat, start: nat, inc: nat): nat
    requires start < inc
  {
    (size + inc - 1 - start) / inc
  }

  function PassWidth(width: nat, pass: nat): nat
    requires pass < 7
  {
    Count(width, PassStart(pass), PassInc(pass))
  }

  function PassRows(height: nat, pass: nat): nat
    requires pass < 7
  {
    Count(height, PassYStart(pass), PassYInc(pass))
  }

  /** The k-th place is in the image exactly for k below the count. */
  lemma {:induction false} CountIsExact(size: nat, start: nat, inc: nat, k: nat)
    requires inc > 0
    ensures start + k * inc < size <==> k < Count(size, start, inc)
    decreases k
  {
    if k > 0 {
      assert start + k * inc == (start + inc) + (k - 1) * inc;
      CountIsExact(size, start + inc, inc, k - 1);
    }
  }

  /** The division counts the places. */
  lemma QuotientCounts(size: nat, start: nat, inc: nat)
    requires start < inc
    ensures Quotient(size, start, inc) == Count(size, start, inc)
  {
    var q := Quotient(size, start, inc);
    QuotientBounds(size, start, inc, q);
    CountIsExact(size, start, inc, q);
    if q > 0 {
      CountIsExact(size, start, inc, q - 1);
    }
  }

  lemma QuotientBounds(size: nat, start: nat, inc: nat, q: nat)
    requires start < inc && q == Quotient(size, start, inc)
    ensures start + q * inc >= size
    ensures q > 0 ==> start + (q - 1) * inc < size
  {
    var a := size + inc - 1 - start;
    assert a == q * inc + a % inc;
    assert (q - 1) * inc == q * inc - inc;
  }

  /** The pass of each place of the 8 by 8 pattern. */
  function PassAt(column: nat, row: nat): (pass: nat)
    ensures pass < 7
  {
    if row == 1 || row == 3 || row == 5 || row == 7 then 6
    else if column == 1 || column == 3 || column == 5 || column == 7 then 5
    else if row == 2 || row == 6 then 4
    else if column == 2 || column == 6 then 3
    else if row == 4 then 2
    else if column == 4 then 1
    else 0
  }

  /** The pattern of section 2.6, whose passes are numbered from 1. */
  lemma PatternRows(column: nat, row: nat)
    requires column < 8 && row < 8
    ensures PassAt(column, row) + 1
         == (if row == 0 then [1, 6, 4, 6, 2, 6, 4, 6]
             else if row == 4 then [3, 6, 4, 6, 3, 6, 4, 6]
             else if row == 2 || row == 6 then [5, 6, 5, 6, 5, 6, 5, 6]
             else [7, 7, 7, 7, 7, 7, 7, 7])[column]
  {
  }

  function PassOf(x: nat, y: nat): (pass: nat)
    ensures pass < 7
  {
    PassAt(x % 8, y % 8)
  }

  /** Column k and row l of a pass. */
  function PixelX(pass: nat, k: nat): nat
    requires pass < 7
  {
    PassStart(pass) + k * PassInc(pass)
  }

  function PixelY(pass: nat, l: nat): nat
    requires pass < 7
  {
    PassYStart(pass) + l * PassYInc(pass)
  }

  /** The same columns and rows, pass by pass. */
  ghost function GridX(pass: nat, k: nat): nat {
    match pass
    case 0 => 8 * k
    case 1 => 4 + 8 * k
    case 2 => 4 * k
    case 3 => 2 + 4 * k
    case 4 => 2 * k
    case 5 => 1 + 2 * k
    case _ => k
  }

  ghost function GridY(pass: nat, l: nat): nat {
    match pass
    case 0 => 8 * l
    case 1 => 8 * l
    case 2 => 4 + 8 * l
    case 3 => 4 * l
    case 4 => 2 + 4 * l
    case 5 => 2 * l
    case _ => 1 + 2 * l
  }

  lemma XIs(pass: nat, k: nat)
    requires pass < 7
    ensures PixelX(pass, k) == GridX(pass, k)
  {
  }

  lemma YIs(pass: nat, l: nat)
    requires pass < 7
    ensures PixelY(pass, l) == GridY(pass, l)
  {
  }

  /** Steps of 8, 4 and 2 from a place, modulo 8. */
  lemma Steps(c: nat, k: nat)
    ensures c < 8 ==> (c + 8 * k) % 8 == c
    ensures c < 4 ==> (c + 4 * k) % 8 == c || (c + 4 * k) % 8 == c + 4
    ensures c < 2 ==> var r := (c + 2 * k) % 8; r == c || r == c + 2 || r == c + 4 || r == c + 6
  {
    assert k == 2 * (k / 2) + k % 2 && k == 4 * (k / 4) + k % 4;
    Eights(c, k);
    Eights(c + 4 * (k % 2), k / 2);
    Eights(c + 2 * (k % 4), k / 4);
  }

  lemma Eights(c: nat, q: nat)
    ensures c < 8 ==> (c + 8 * q) % 8 == c
  {
  }

  lemma ColumnsOf(pass: nat, k: nat)
    requires pass < 7
    ensures var r := PixelX(pass, k) % 8;
      match pass
      case 0 => r == 0
      case 1 => r == 4
      case 2 => r == 0 || r == 4
      case 3 => r == 2 || r == 6
      case 4 => r == 0 || r == 2 || r == 4 || r == 6
      case 5 => r == 1 || r == 3 || r == 5 || r == 7
      case _ => true
  {
    XIs(pass, k);
    Steps(PassStart(pass), k);
  }

  lemma RowsOf(pass: nat, l: nat)
    requires pass < 7
    ensures var r := PixelY(pass, l) % 8;
      match pass
      case 0 => r == 0
      case 1 => r == 0
      case 2 => r == 4
      case 3 => r == 0 || r == 4
      case 4 => r == 2 || r == 6
      case 5 => r == 0 || r == 2 || r == 4 || r == 6
      case _ => r == 1 || r == 3 || r == 5 || r == 7
  {
    YIs(pass, l);
    Steps(PassYStart(pass), l);
  }

  /** A pixel on the grid of a pass belongs to that pass and to no other. */
  lemma GridIsDisjoint(pass: nat, k: nat, l: nat)
    requires pass < 7
    ensures PassOf(PixelX(pass, k), PixelY(pass, l)) == pass
  {
    ColumnsOf(pass, k);
    RowsOf(pass, l);
  }

  /** Where a pixel stands in its pass. */
  lemma OnGrid(x: nat, y: nat) returns (k: nat, l: nat)
    ensures x == PixelX(PassOf(x, y), k) && y == PixelY(PassOf(x, y), l)
  {
    var p := PassOf(x, y);
    k := ColumnOf(x, y % 8);
    l := RowOf(x % 8, y);
    XIs(p, k);
    YIs(p, l);
  }

  lemma ColumnOf(x: nat, row: nat) returns (k: nat)
    requires row < 8
    ensures x == GridX(PassAt(x % 8, row), k)
  {
    var p, q, r := PassAt(x % 8, row), x / 8, x % 8;
    assert x == 8 * q + r;
    k := if p < 2 then q else if p < 4 then 2 * q + r / 4 else if p < 6 then 4 * q + r / 2 else x;
  }

  lemma RowOf(column: nat, y: nat) returns (l: nat)
    requires column < 8
    ensures y == GridY(PassAt(column, y % 8), l)
  {
    var p, q, r := PassAt(column, y % 8), y / 8, y % 8;
    assert y == 8 * q + r;
    l := if p < 3 then q else if p < 5 then 2 * q + r / 4 else 4 * q + r / 2;
  }

  /** Every pixel of the image is one column of one row of exactly one pass, at coordinates within the pass. */
  lemma PixelInOnePass(width: nat, height: nat, x: nat, y: nat)
    requires x < width && y < height
    ensures var p := PassOf(x, y);
      exists k, l ::
        0 <= k < PassWidth(width, p) && 0 <= l < PassRows(height, p) && x == PixelX(p, k) && y == PixelY(p, l)
  {
    var p := PassOf(x, y);
    var k, l := OnGrid(x, y);
    CountIsExact(width, PassStart(p), PassInc(p), k);
    CountIsExact(height, PassYStart(p), PassYInc(p), l);
    assert x == PixelX(p, k) && y == PixelY(p, l);
  }

  /** Conversely the coordinates of a pass are pixels of the image, and of that pass. */
  lemma PassPixelInImage(width: nat, height: nat, p: nat, k: nat, l: nat)
    requires p < 7 && k < PassWidth(width, p) && l < PassRows(height, p)
    ensures PixelX(p, k) < width && PixelY(p, l) < height && PassOf(PixelX(p, k), PixelY(p, l)) == p
  {
    CountIsExact(width, PassStart(p), PassInc(p), k);
    CountIsExact(height, PassYStart(p), PassYInc(p), l);
    GridIsDisjoint(p, k, l);
  }

  /** The even and the odd halves of every inc-th place make up the places of half the step. */
  lemma {:induction false} Halves(size: nat, start: nat, inc: nat)
    requires inc > 0
    ensures Count(size, start, 2 * inc) + Count(size, start + inc, 2 * inc) == Count(size, start, inc)
    decreases size - start
  {
    if start < size {
      Halves(size, start + inc, inc);
    }
  }

  function PassPixels(width: nat, height: nat, pass: nat): nat
    requires pass < 7
  {
    PassWidth(width, pass) * PassRows(height, pass)
  }

  lemma Together(a: nat, b: nat, ab: nat, c: nat)
    requires a + b == ab
    ensures a * c + b * c == ab * c && c * a + c * b == c * ab
  {
  }

  /** The pixels of the first passes. */
  function PixelsBefore(width: nat, height: nat, pass: nat): nat
    requires pass <= 7
  {
    if pass == 0 then 0 else PixelsBefore(width, height, pass - 1) + PassPixels(width, height, pass - 1)
  }

  /**
   * After passes 0, 2, 4 and 6 the pixels known so far form a grid of square cells; so they do after 1, 3
   * and 5, but of cells twice as high.
   */
  lemma GridAfter(width: nat, height: nat, x: nat, y: nat, pass: nat)
    requires (pass == 1 && x == 8 && y == 8) || (pass == 2 && x == 4 && y == 8) || (pass == 3 && x == 4 && y == 4)
      || (pass == 4 && x == 2 && y == 4) || (pass == 5 && x == 2 && y == 2) || (pass == 6 && x == 1 && y == 2)
      || (pass == 7 && x == 1 && y == 1)
    ensures PixelsBefore(width, height, pass) == Count(width, 0, x) * Count(height, 0, y)
    decreases pass
  {
    var p := pass - 1;
    if pass == 2 || pass == 4 || pass == 6 {
      GridAfter(width, height, 2 * x, y, p);
      Halves(width, 0, x);
      assert PassWidth(width, p) == Count(width, x, 2 * x) && PassRows(height, p) == Count(height, 0, y);
      Together(Count(width, 0, 2 * x), Count(width, x, 2 * x), Count(width, 0, x), Count(height, 0, y));
    } else if pass > 1 {
      GridAfter(width, height, x, 2 * y, p);
      Halves(height, 0, y);
      assert PassWidth(width, p) == Count(width, 0, x) && PassRows(height, p) == Count(height, y, 2 * y);
      Together(Count(height, 0, 2 * y), Count(height, y, 2 * y), Count(height, 0, y), Count(width, 0, x));
    }
  }

  /** The seven passes together hold every pixel of the image once. */
  lemma PassesCoverImage(width: nat, height: nat)
    ensures PixelsBefore(width, height, 7) == width * height
  {
    GridAfter(width, height, 1, 1, 7);
    QuotientCounts(width, 0, 1);
    QuotientCounts(height, 0, 1);
  }
}
