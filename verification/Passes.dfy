/** The progress of a reader through the rows of an image, pass by pass. */
module Passes {
  import opened Adam7

  /**
   * The rows taken in a pass: all of them if passes are delivered at full height. Otherwise a pass without
   * columns is passed over, but one without rows is not: it takes one row all the same.
   */
  function RowsTaken(width: nat, height: nat, handled: bool, pass: nat): nat
    requires pass < 7
  {
    if handled then height
    else if PassWidth(width, pass) == 0 then 0
    else AtLeastOne(PassRows(height, pass))
  }

  function AtLeastOne(n: nat): nat {
    if n == 0 then 1 else n
  }

  /** The rows of a pass that are in the image. */
  function RowsThere(width: nat, height: nat, pass: nat): nat
    requires pass < 7
  {
    if PassWidth(width, pass) == 0 then 0 else PassRows(height, pass)
  }

  /** Sums over the passes from this one on. */
  function TakenFrom(width: nat, height: nat, handled: bool, pass: nat): nat
    decreases 7 - pass
  {
    if pass >= 7 then 0 else RowsTaken(width, height, handled, pass) + TakenFrom(width, height, handled, pass + 1)
  }

  function ThereFrom(width: nat, height: nat, pass: nat): nat
    decreases 7 - pass
  {
    if pass >= 7 then 0 else RowsThere(width, height, pass) + ThereFrom(width, height, pass + 1)
  }

  /** The columns or rows of a pass. */
  method CountOf(size: nat, start: nat, inc: nat) returns (n: nat)
    requires start < inc
    ensures n == Count(size, start, inc)
  {
    n := (size + inc - 1 - start) / inc;
    QuotientCounts(size, start, inc);
  }

  class RowReader {
    const width: nat
    const height: nat
    const interlaced: bool
    /** Set when the rows of all passes are delivered at full height (PNG_INTERLACE). */
    const handled: bool
    var pass: nat
    var iwidth: nat
    var numRows: nat
    var rowNumber: nat

    constructor (width: nat, height: nat, interlaced: bool, handled: bool)
      requires width > 0 && height > 0
      ensures this.width == width && this.height == height && this.interlaced == interlaced && this.handled == handled
      ensures pass == 0 && rowNumber == 0
    {
      this.width := width;
      this.height := height;
      this.interlaced := interlaced;
      this.handled := handled;
      pass, iwidth, numRows, rowNumber := 0, 0, 0, 0;
    }

    /** The rows still to be taken, the current one included. */
    ghost function Remaining(): int
      reads this
    {
      AtLeastOne(numRows) - rowNumber + if interlaced then TakenFrom(width, height, handled, pass + 1) else 0
    }

    ghost predicate Valid()
      reads this
    {
      && width > 0 && height > 0 && pass < 7
      && rowNumber < AtLeastOne(numRows)
      && (!interlaced || handled ==> numRows == height)
      && (!interlaced ==> pass == 0 && iwidth == width)
      && (interlaced ==> iwidth == PassWidth(width, pass))
      && (interlaced && !handled ==> iwidth > 0 && numRows == PassRows(height, pass))
    }

    /** The counts for the first row. */
    method StartRow()
      requires width > 0 && height > 0 && pass == 0 && rowNumber == 0
      modifies `iwidth, `numRows
      ensures Valid()
      ensures iwidth == if interlaced then PassWidth(width, 0) else width
      ensures Remaining() == if interlaced then TakenFrom(width, height, handled, 0) else height
    {
      FirstPassIsThere(width, height);
      if interlaced {
        if !handled {
          numRows := CountOf(height, PassYStart(0), PassYInc(0));
        } else {
          numRows := height;
        }
        iwidth := CountOf(width, PassStart(pass), PassInc(pass));
      } else {
        numRows := height;
        iwidth := width;
      }
    }

    /** The counts of the pass just entered; again means that the search for a pass goes on. */
    method EnterPass() returns (again: bool)
      requires pass < 7
      modifies `iwidth, `numRows
      ensures iwidth == PassWidth(width, pass)
      ensures numRows == if handled then old(numRows) else PassRows(height, pass)
      ensures again <==> !handled && PassWidth(width, pass) == 0
    {
      iwidth := CountOf(width, PassStart(pass), PassInc(pass));
      if handled {
        return false;
      }
      // a pass without rows goes on to the same test as any other
      numRows := CountOf(height, PassYStart(pass), PassYInc(pass));
      again := iwidth == 0;
    }

    /** On to the next pass: to the next one with columns, unless passes are delivered at full height. */
    method NextPass()
      requires pass < 7 && interlaced
      modifies `pass, `iwidth, `numRows
      ensures old(pass) < pass <= 7
      ensures TakenFrom(width, height, handled, pass) == TakenFrom(width, height, handled, old(pass) + 1)
      ensures handled ==> pass == old(pass) + 1 && numRows == old(numRows)
      ensures pass < 7 ==> iwidth == PassWidth(width, pass)
      ensures pass < 7 && !handled ==> iwidth > 0 && numRows == PassRows(height, pass)
    {
      var again := true;
      while again
        invariant old(pass) <= pass <= 7 && (again ==> pass < 7) && (!again ==> old(pass) < pass)
        invariant TakenFrom(width, height, handled, if again then pass + 1 else pass)
               == TakenFrom(width, height, handled, old(pass) + 1)
        invariant handled ==> pass == (if again then old(pass) else old(pass) + 1) && numRows == old(numRows)
        invariant !again && pass < 7 ==> iwidth == PassWidth(width, pass)
        invariant !again && pass < 7 && !handled ==> iwidth > 0 && numRows == PassRows(height, pass)
        decreases 7 - pass, again
      {
        pass := pass + 1;
        if pass >= 7 {
          again := false;
        } else {
          again := EnterPass();
        }
      }
    }

    /** One row is finished; each call takes one row, and the last one says so. */
    method FinishRow() returns (done: bool)
      requires Valid()
      modifies `pass, `iwidth, `numRows, `rowNumber
      ensures done <==> old(Remaining()) == 1
      ensures !done ==> Valid() && Remaining() == old(Remaining()) - 1
    {
      rowNumber := rowNumber + 1;
      if rowNumber < numRows {
        return false;
      }
      if interlaced {
        rowNumber := 0;
        NextPass();
        if pass < 7 {
          return false;
        }
      }
      return true;
    }
  }

  lemma FirstPassIsThere(width: nat, height: nat)
    requires width > 0 && height > 0
    ensures PassWidth(width, 0) > 0 && PassRows(height, 0) > 0
  {
  }

  lemma EmptyPass(width: nat, height: nat, pass: nat)
    requires pass < 7
    ensures PassWidth(width, pass) == 0 <==> width <= PassStart(pass)
    ensures PassRows(height, pass) == 0 <==> height <= PassYStart(pass)
  {
  }

  /**
   * When the passes are delivered one by one, a whole run takes exactly the rows that the image has if and
   * only if the image is more than four rows high: a lower image has a pass with columns but no rows.
   */
  lemma NoRowTakenInVain(width: nat, height: nat)
    requires width > 0 && height > 0
    ensures TakenFrom(width, height, false, 0) == ThereFrom(width, height, 0) <==> height > 4
  {
    EmptyPass(width, height, 2);
    TakenAtLeast(width, height, 3);
    if height > 4 {
      SameWhenHigh(width, height, 0);
    } else {
      assert TakenFrom(width, height, false, 2) > ThereFrom(width, height, 2);
      assert TakenFrom(width, height, false, 1) > ThereFrom(width, height, 1);
    }
  }

  lemma {:induction false} TakenAtLeast(width: nat, height: nat, pass: nat)
    ensures TakenFrom(width, height, false, pass) >= ThereFrom(width, height, pass)
    decreases 7 - pass
  {
    if pass < 7 {
      TakenAtLeast(width, height, pass + 1);
    }
  }

  lemma {:induction false} SameWhenHigh(width: nat, height: nat, pass: nat)
    requires height > 4
    ensures TakenFrom(width, height, false, pass) == ThereFrom(width, height, pass)
    decreases 7 - pass
  {
    if pass < 7 {
      EmptyPass(width, height, pass);
      SameWhenHigh(width, height, pass + 1);
    }
  }
}
