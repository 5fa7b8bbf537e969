/** The five row filters of RFC 2083, section 6, and their removal in place. */
module RowFilters {
  type Octet = x: int | 0 <= x < 256

  const NONE: nat := 0
  const SUB: nat := 1
  const UP: nat := 2
  const AVG: nat := 3
  const PAETH: nat := 4

  /** Addition of bytes, keeping the low eight bits. */
  function Add(a: Octet, b: Octet): Octet {
    (a as int + b as int) % 256
  }

  function Mean(a: Octet, b: Octet): Octet {
    (a as int + b as int) / 2
  }

  function Abs(x: int): nat {
    if x < 0 then -x else x
  }

  /** Section 6.6: of a, b and c the nearest to a + b - c, the earlier one if two are as near. */
  function PaethPredictor(a: Octet, b: Octet, c: Octet): Octet {
    var p := a + b - c;
    var pa, pb, pc := Abs(p - a), Abs(p - b), Abs(p - c);
    if pa <= pb && pa <= pc then a else if pb <= pc then b else c
  }

  /** Left of the first pixel there are zeros. */
  function Before(s: seq<Octet>, x: nat, bpp: nat): Octet
    requires x < |s| + bpp
  {
    if x < bpp then 0 else s[x - bpp]
  }

  /** Sections 6.2 to 6.6: what is subtracted from byte x of the row. */
  function Predicted(filter: nat, raw: seq<Octet>, prior: seq<Octet>, bpp: nat, x: nat): Octet
    requires bpp > 0 && x < |raw| && x < |prior|
  {
    var a, b, c := Before(raw, x, bpp), prior[x], Before(prior, x, bpp);
    if filter == SUB then a
    else if filter == UP then b
    else if filter == AVG then Mean(a, b)
    else if filter == PAETH then PaethPredictor(a, b, c)
    else 0
  }

  function Filtered(filter: nat, raw: seq<Octet>, prior: seq<Octet>, bpp: nat): (r: seq<Octet>)
    requires bpp > 0 && |raw| <= |prior|
    ensures |r| == |raw|
  {
    seq(|raw|, x requires 0 <= x < |raw| => (raw[x] - Predicted(filter, raw, prior, bpp, x)) % 256)
  }

  /** No two rows have the same encoding. */
  lemma FilterIsInjective(filter: nat, r: seq<Octet>, s: seq<Octet>, prior: seq<Octet>, bpp: nat)
    requires bpp > 0 && |r| == |s| <= |prior|
    requires Filtered(filter, r, prior, bpp) == Filtered(filter, s, prior, bpp)
    ensures r == s
  {
    forall x | 0 <= x < |r|
      ensures r[x] == s[x]
    {
      SameByte(filter, r, s, prior, bpp, x);
    }
  }

  lemma {:induction false} SameByte(filter: nat, r: seq<Octet>, s: seq<Octet>, prior: seq<Octet>, bpp: nat, x: nat)
    requires bpp > 0 && |r| == |s| <= |prior| && x < |r|
    requires Filtered(filter, r, prior, bpp) == Filtered(filter, s, prior, bpp)
    ensures r[x] == s[x]
    decreases x
  {
    if x >= bpp {
      SameByte(filter, r, s, prior, bpp, x - bpp);
    }
    assert Predicted(filter, r, prior, bpp, x) == Predicted(filter, s, prior, bpp, x);
    assert Filtered(filter, r, prior, bpp)[x] == Filtered(filter, s, prior, bpp)[x];
    Cancel(r[x], s[x], Predicted(filter, r, prior, bpp, x));
  }

  lemma Cancel(a: Octet, b: Octet, p: Octet)
    requires (a - p) % 256 == (b - p) % 256
    ensures a == b
  {
  }

  /** The first pixel of a Paeth row is encoded as in an Up row. */
  lemma PaethStartsAsUp(raw: seq<Octet>, prior: seq<Octet>, bpp: nat, x: nat)
    requires bpp > 0 && x < bpp && x < |raw| && x < |prior|
    ensures Predicted(PAETH, raw, prior, bpp, x) == Predicted(UP, raw, prior, bpp, x)
  {
  }

  /** Past the first pixel all three neighbours are there. */
  lemma PredictedInside(raw: seq<Octet>, prior: seq<Octet>, bpp: nat, x: nat)
    requires 0 < bpp <= x && x < |raw| && x < |prior|
    ensures Predicted(AVG, raw, prior, bpp, x) == Mean(prior[x], raw[x - bpp])
    ensures Predicted(PAETH, raw, prior, bpp, x) == PaethPredictor(raw[x - bpp], prior[x], prior[x - bpp])
  {
  }

  /** Bytes below k are decoded, the others not yet. */
  ghost predicate DecodedBelow(filter: nat, enc: seq<Octet>, row: seq<Octet>, prior: seq<Octet>, bpp: nat, n: nat,
                               k: nat)
    requires bpp > 0
  {
    && |enc| == |row| && n <= |row| && n <= |prior|
    && (forall x :: 0 <= x < k && x < n ==> row[x] == Add(enc[x], Predicted(filter, row, prior, bpp, x)))
    && (forall x :: k <= x < |row| ==> row[x] == enc[x])
  }

  /** One byte more: its prediction uses decoded bytes only. */
  lemma DecodeOne(filter: nat, enc: seq<Octet>, row: seq<Octet>, prior: seq<Octet>, bpp: nat, n: nat, k: nat, v: Octet)
    requires bpp > 0 && k < n && DecodedBelow(filter, enc, row, prior, bpp, n, k)
    requires v == Add(row[k], Predicted(filter, row, prior, bpp, k))
    ensures DecodedBelow(filter, enc, row[k := v], prior, bpp, n, k + 1)
  {
    var now := row[k := v];
    forall x | 0 <= x <= k
      ensures Predicted(filter, now, prior, bpp, x) == Predicted(filter, row, prior, bpp, x)
    {
    }
  }

  /** A decoded row is the one whose encoding was there. */
  lemma DecodedIsRaw(filter: nat, enc: seq<Octet>, row: seq<Octet>, prior: seq<Octet>, bpp: nat, n: nat)
    requires bpp > 0 && DecodedBelow(filter, enc, row, prior, bpp, n, n)
    ensures Filtered(filter, row[..n], prior, bpp) == enc[..n] && row[n..] == enc[n..]
  {
    forall x | 0 <= x < n
      ensures Filtered(filter, row[..n], prior, bpp)[x] == enc[x]
    {
      assert Predicted(filter, row[..n], prior, bpp, x) == Predicted(filter, row, prior, bpp, x);
    }
  }

  /** Adds the prediction to a byte. */
  method Store(row: array<Octet>, rp: nat, p: Octet, ghost filter: nat, ghost enc: seq<Octet>, ghost prior: seq<Octet>,
               ghost bpp: nat, ghost n: nat)
    requires bpp > 0 && rp < n && DecodedBelow(filter, enc, row[..], prior, bpp, n, rp)
    requires p == Predicted(filter, row[..], prior, bpp, rp)
    modifies row
    ensures DecodedBelow(filter, enc, row[..], prior, bpp, n, rp + 1)
  {
    ghost var was := row[..];
    var v := Add(row[rp], p);
    DecodeOne(filter, enc, was, prior, bpp, n, rp, v);
    row[rp] := v;
    assert row[..] == was[rp := v];
  }

  method UndoSub(row: array<Octet>, bpp: nat, rowbytes: nat, ghost prior: seq<Octet>)
    requires bpp > 0 && rowbytes <= row.Length && rowbytes <= |prior|
    modifies row
    ensures DecodedBelow(SUB, old(row[..]), row[..], prior, bpp, rowbytes, rowbytes)
  {
    ghost var enc := row[..];
    var rp, lp := bpp, 0;
    ghost var k := if bpp < rowbytes then bpp else rowbytes;
    for i := bpp to if bpp < rowbytes then rowbytes else bpp
      invariant rp == i && lp == i - bpp && k == (if i < rowbytes then i else rowbytes)
      invariant DecodedBelow(SUB, enc, row[..], prior, bpp, rowbytes, k)
    {
      Store(row, rp, row[lp], SUB, enc, prior, bpp, rowbytes);
      rp, lp := rp + 1, lp + 1;
      k := k + 1;
    }
  }

  method UndoUp(row: array<Octet>, prior: array<Octet>, bpp: nat, rowbytes: nat)
    requires bpp > 0 && rowbytes <= row.Length && rowbytes <= prior.Length && row != prior
    modifies row
    ensures DecodedBelow(UP, old(row[..]), row[..], prior[..], bpp, rowbytes, rowbytes)
  {
    ghost var enc := row[..];
    var rp, pp := 0, 0;
    for i := 0 to rowbytes
      invariant rp == i && pp == i && prior[..] == old(prior[..])
      invariant DecodedBelow(UP, enc, row[..], prior[..], bpp, rowbytes, i)
    {
      Store(row, rp, prior[pp], UP, enc, prior[..], bpp, rowbytes);
      rp, pp := rp + 1, pp + 1;
    }
  }

  method UndoAverage(row: array<Octet>, prior: array<Octet>, bpp: nat, rowbytes: nat)
    requires 0 < bpp <= rowbytes <= row.Length && rowbytes <= prior.Length && row != prior
    modifies row
    ensures DecodedBelow(AVG, old(row[..]), row[..], prior[..], bpp, rowbytes, rowbytes)
  {
    ghost var enc := row[..];
    var rp, pp := 0, 0;
    for i := 0 to bpp
      invariant rp == i && pp == i && prior[..] == old(prior[..])
      invariant DecodedBelow(AVG, enc, row[..], prior[..], bpp, rowbytes, i)
    {
      Store(row, rp, prior[pp] / 2, AVG, enc, prior[..], bpp, rowbytes);
      rp, pp := rp + 1, pp + 1;
    }
    UndoAverageRest(row, prior, rp, pp, bpp, rowbytes, enc);
  }

  /** The bytes that have a pixel to their left; rp and pp are left over from those that have none. */
  method UndoAverageRest(row: array<Octet>, prior: array<Octet>, rp0: nat, pp0: nat, bpp: nat, rowbytes: nat,
                         ghost enc: seq<Octet>)
    requires 0 < bpp <= rowbytes <= row.Length && rowbytes <= prior.Length && row != prior && rp0 == bpp && pp0 == bpp
    requires DecodedBelow(AVG, enc, row[..], prior[..], bpp, rowbytes, bpp)
    modifies row
    ensures DecodedBelow(AVG, enc, row[..], prior[..], bpp, rowbytes, rowbytes)
  {
    var rp, pp, lp := rp0, pp0, 0;
    for i := 0 to rowbytes - bpp
      invariant rp == bpp + i && pp == bpp + i && lp == i && prior[..] == old(prior[..])
      invariant DecodedBelow(AVG, enc, row[..], prior[..], bpp, rowbytes, bpp + i)
    {
      PredictedInside(row[..], prior[..], bpp, rp);
      Store(row, rp, Mean(prior[pp], row[lp]), AVG, enc, prior[..], bpp, rowbytes);
      rp, pp, lp := rp + 1, pp + 1, lp + 1;
    }
  }

  /** The choice between left, above and upper left, by differences. */
  method Nearest(a: Octet, b: Octet, c: Octet) returns (p: Octet)
    ensures p == PaethPredictor(a, b, c)
  {
    var d := b - c;
    var pc := a - c;
    var pa := if d < 0 then -d else d;
    var pb := if pc < 0 then -pc else pc;
    pc := if d + pc < 0 then -(d + pc) else d + pc;
    p := if pa <= pb && pa <= pc then a else if pb <= pc then b else c;
  }

  method UndoPaeth(row: array<Octet>, prior: array<Octet>, bpp: nat, rowbytes: nat)
    requires 0 < bpp <= rowbytes <= row.Length && rowbytes <= prior.Length && row != prior
    modifies row
    ensures DecodedBelow(PAETH, old(row[..]), row[..], prior[..], bpp, rowbytes, rowbytes)
  {
    ghost var enc := row[..];
    var rp, pp := 0, 0;
    for i := 0 to bpp
      invariant rp == i && pp == i && prior[..] == old(prior[..])
      invariant DecodedBelow(PAETH, enc, row[..], prior[..], bpp, rowbytes, i)
    {
      PaethStartsAsUp(row[..], prior[..], bpp, rp);
      Store(row, rp, prior[pp], PAETH, enc, prior[..], bpp, rowbytes);
      rp, pp := rp + 1, pp + 1;
    }
    UndoPaethRest(row, prior, rp, pp, bpp, rowbytes, enc);
  }

  /** The bytes that have a pixel to their left; rp and pp are left over from those that have none. */
  method UndoPaethRest(row: array<Octet>, prior: array<Octet>, rp0: nat, pp0: nat, bpp: nat, rowbytes: nat,
                       ghost enc: seq<Octet>)
    requires 0 < bpp <= rowbytes <= row.Length && rowbytes <= prior.Length && row != prior && rp0 == bpp && pp0 == bpp
    requires DecodedBelow(PAETH, enc, row[..], prior[..], bpp, rowbytes, bpp)
    modifies row
    ensures DecodedBelow(PAETH, enc, row[..], prior[..], bpp, rowbytes, rowbytes)
  {
    var rp, pp, lp, cp := rp0, pp0, 0, 0;
    for i := 0 to rowbytes - bpp
      invariant rp == bpp + i && pp == bpp + i && lp == i && cp == i && prior[..] == old(prior[..])
      invariant DecodedBelow(PAETH, enc, row[..], prior[..], bpp, rowbytes, bpp + i)
    {
      UndoPaethByte(row, prior, rp, pp, lp, cp, bpp, rowbytes, enc);
      rp, pp, lp, cp := rp + 1, pp + 1, lp + 1, cp + 1;
    }
  }

  method UndoPaethByte(row: array<Octet>, prior: array<Octet>, rp: nat, pp: nat, lp: nat, cp: nat, bpp: nat,
                       rowbytes: nat, ghost enc: seq<Octet>)
    requires 0 < bpp <= rp < rowbytes <= row.Length && rowbytes <= prior.Length && row != prior
    requires pp == rp && lp == cp == rp - bpp
    requires DecodedBelow(PAETH, enc, row[..], prior[..], bpp, rowbytes, rp)
    modifies row
    ensures DecodedBelow(PAETH, enc, row[..], prior[..], bpp, rowbytes, rp + 1)
  {
    PredictedInside(row[..], prior[..], bpp, rp);
    var p := Nearest(row[lp], prior[pp], prior[cp]);
    Store(row, rp, p, PAETH, enc, prior[..], bpp, rowbytes);
  }

  /** Half of a + b, rounded down. */
  ghost predicate IsMean(m: int, a: int, b: int) {
    2 * m <= a + b < 2 * m + 2
  }

  ghost function Distance(x: int, y: int): nat {
    if x < y then y - x else x - y
  }

  /** v is the one of a, b and c that is nearest to a + b - c; a goes before b, and b before c. */
  ghost predicate IsNearest(v: int, a: int, b: int, c: int) {
    var t := a + b - c;
    || (v == a && Distance(a, t) <= Distance(b, t) && Distance(a, t) <= Distance(c, t))
    || (v == b && Distance(b, t) < Distance(a, t) && Distance(b, t) <= Distance(c, t))
    || (v == c && Distance(c, t) < Distance(a, t) && Distance(c, t) < Distance(b, t))
  }

  /** Sections 6.2 to 6.6: r is what e stands for, with a to the left, b above and c above to the left. */
  ghost predicate Stands(filter: nat, e: int, r: int, a: int, b: int, c: int) {
    && (filter == 0 ==> r == e)
    && (filter == 1 ==> r == (e + a) % 256)
    && (filter == 2 ==> r == (e + b) % 256)
    && (filter == 3 ==> exists m {:trigger IsMean(m, a, b)} :: IsMean(m, a, b) && r == (e + m) % 256)
    && (filter == 4 ==> exists v {:trigger IsNearest(v, a, b, c)} :: IsNearest(v, a, b, c) && r == (e + v) % 256)
  }

  lemma AddedStands(filter: nat, e: Octet, r: Octet, a: Octet, b: Octet, c: Octet)
    requires filter == NONE ==> r == Add(e, 0)
    requires filter == SUB ==> r == Add(e, a)
    requires filter == UP ==> r == Add(e, b)
    requires filter == AVG ==> r == Add(e, Mean(a, b))
    requires filter == PAETH ==> r == Add(e, PaethPredictor(a, b, c))
    ensures Stands(filter, e, r, a, b, c)
  {
    assert IsMean(Mean(a, b), a, b);
    assert IsNearest(PaethPredictor(a, b, c), a, b, c);
  }

  /** Byte x is the one that the byte read stands for; before the first pixel there are zeros. */
  ghost predicate RestoredAt(filter: nat, enc: seq<Octet>, row: seq<Octet>, prior: seq<Octet>, bpp: nat, x: nat)
    requires x < |row| == |enc| <= |prior|
  {
    if x < bpp then Stands(filter, enc[x], row[x], 0, prior[x], 0)
    else Stands(filter, enc[x], row[x], row[x - bpp], prior[x], prior[x - bpp])
  }

  ghost predicate Restored(filter: nat, enc: seq<Octet>, row: seq<Octet>, prior: seq<Octet>, bpp: nat) {
    && |enc| == |row| <= |prior|
    && forall x :: 0 <= x < |row| ==> RestoredAt(filter, enc, row, prior, bpp, x)
  }

  lemma DecodedIsRestored(filter: nat, enc: seq<Octet>, row: seq<Octet>, prior: seq<Octet>, bpp: nat, n: nat)
    requires bpp > 0 && DecodedBelow(filter, enc, row, prior, bpp, n, n)
    ensures Restored(filter, enc[..n], row[..n], prior, bpp)
  {
    var e, r := enc[..n], row[..n];
    forall x | 0 <= x < |r|
      ensures RestoredAt(filter, e, r, prior, bpp, x)
    {
      AddedStands(filter, enc[x], row[x], Before(row, x, bpp), prior[x], Before(prior, x, bpp));
    }
  }

  /**
   * Removes the filter from the first rowbytes bytes: they were the encoding of what is there now. A filter
   * of unknown type only clears the first byte.
   */
  method ReadFilterRow(row: array<Octet>, prior: array<Octet>, pixelDepth: nat, rowbytes: nat, filter: nat)
    requires pixelDepth > 0 && (pixelDepth + 7) / 8 <= rowbytes <= row.Length && rowbytes <= prior.Length
    requires row != prior
    modifies row
    ensures filter <= 4 ==> Restored(filter, old(row[..rowbytes]), row[..rowbytes], prior[..], (pixelDepth + 7) / 8)
    ensures filter <= 4 ==>
      Filtered(filter, row[..rowbytes], prior[..], (pixelDepth + 7) / 8) == old(row[..rowbytes])
    ensures filter > 4 ==> row[..rowbytes] == old(row[..rowbytes])[0 := 0]
    ensures row[rowbytes..] == old(row[rowbytes..])
  {
    var bpp := (pixelDepth + 7) / 8;
    ghost var enc := row[..];
    if filter == NONE {
      assert DecodedBelow(NONE, enc, row[..], prior[..], bpp, rowbytes, rowbytes);
    } else if filter == SUB {
      UndoSub(row, bpp, rowbytes, prior[..]);
    } else if filter == UP {
      UndoUp(row, prior, bpp, rowbytes);
    } else if filter == AVG {
      UndoAverage(row, prior, bpp, rowbytes);
    } else if filter == PAETH {
      UndoPaeth(row, prior, bpp, rowbytes);
    } else {
      row[0] := 0;
      return;
    }
    DecodedIsRaw(filter, enc, row[..], prior[..], bpp, rowbytes);
    DecodedIsRestored(filter, enc, row[..], prior[..], bpp, rowbytes);
  }

  /** Whatever undoes an encoding gives back the raw row that was encoded. */
  lemma UnfilteringInverts(filter: nat, raw: seq<Octet>, prior: seq<Octet>, bpp: nat, enc: seq<Octet>, out: seq<Octet>)
    requires bpp > 0 && |out| == |raw| <= |prior|
    requires enc == Filtered(filter, raw, prior, bpp) && Filtered(filter, out, prior, bpp) == enc
    ensures out == raw
  {
    FilterIsInjective(filter, out, raw, prior, bpp);
  }
}
