/** Pixels of 1, 2 or 4 bits within bytes, in both orders, and how a single pixel is replaced. */
module PixelBits {
  type Byte = bv8

  predicate IsPacked(d: nat) {
    d == 1 || d == 2 || d == 4
  }

  function PerByte(d: nat): nat {
    if d == 1 then 8 else if d == 2 then 4 else 2
  }

  function LowMask(d: nat): Byte
    requires IsPacked(d)
  {
    if d == 1 then 0x01 else if d == 2 then 0x03 else 0x0f
  }

  function Pattern(d: nat): bv16
    requires IsPacked(d)
  {
    if d == 1 then 0x7f7f else if d == 2 then 0x3f3f else 0x0f0f
  }

  predicate IsShift(d: nat, s: int) {
    IsPacked(d) && 0 <= s <= 8 - d && (d == 1 || s % d == 0)
  }

  /** A shift as a machine value. */
  function Amount(s: int): (a: Byte)
    requires 0 <= s < 8
    ensures a < 8
  {
    if s == 0 then 0 else if s == 1 then 1 else if s == 2 then 2 else if s == 3 then 3
    else if s == 4 then 4 else if s == 5 then 5 else if s == 6 then 6 else 7
  }

  function Extract(b: Byte, d: nat, s: nat): Byte
    requires IsShift(d, s)
  {
    (b >> Amount(s)) & LowMask(d)
  }

  /** All bits but those of the pixel at shift s. */
  function Others(d: nat, s: nat): Byte
    requires IsShift(d, s)
  {
    ((Pattern(d) >> Amount(8 - d - s)) & 0xff) as Byte
  }

  function Insert(b: Byte, v: Byte, d: nat, s: nat): Byte
    requires IsShift(d, s)
  {
    (b & Others(d, s)) | (v << Amount(s))
  }

  /** The value takes at most d bits. */
  predicate Fits(v: Byte, d: nat)
    requires IsPacked(d)
  {
    v & LowMask(d) == v
  }

  /** Insertion replaces pixel s. */
  lemma InsertedThere(b: Byte, v: Byte, d: nat, s: nat)
    requires IsShift(d, s) && Fits(v, d)
    ensures Extract(Insert(b, v, d, s), d, s) == v
  {
  }

  lemma BitStays(b: Byte, v: Byte, s: Byte, s': Byte)
    requires s < 8 && s' < 8 && s != s' && v & 0x01 == v
    ensures (((b & (((0x7f7f as bv16 >> (7 - s)) & 0xff) as Byte)) | (v << s)) >> s') & 0x01 == (b >> s') & 0x01
  {
  }

  lemma OtherBitStays(b: Byte, v: Byte, s: nat, s': nat)
    requires IsShift(1, s) && IsShift(1, s') && s != s' && Fits(v, 1)
    ensures Extract(Insert(b, v, 1, s), 1, s') == Extract(b, 1, s')
  {
    assert Amount(7 - s) == 7 - Amount(s);
    BitStays(b, v, Amount(s), Amount(s'));
  }

  lemma PairStays(b: Byte, v: Byte, s: Byte, s': Byte)
    requires s <= 6 && s & 1 == 0 && s' <= 6 && s' & 1 == 0 && s != s' && v & 0x03 == v
    ensures (((b & (((0x3f3f as bv16 >> (6 - s)) & 0xff) as Byte)) | (v << s)) >> s') & 0x03 == (b >> s') & 0x03
  {
  }

  lemma OtherPairStays(b: Byte, v: Byte, s: nat, s': nat)
    requires IsShift(2, s) && IsShift(2, s') && s != s' && Fits(v, 2)
    ensures Extract(Insert(b, v, 2, s), 2, s') == Extract(b, 2, s')
  {
    assert Amount(6 - s) == 6 - Amount(s);
    PairStays(b, v, Amount(s), Amount(s'));
  }

  lemma HalfStays(b: Byte, v: Byte, s: Byte, s': Byte)
    requires (s == 0 || s == 4) && (s' == 0 || s' == 4) && s != s' && v & 0x0f == v
    ensures (((b & (((0x0f0f as bv16 >> (4 - s)) & 0xff) as Byte)) | (v << s)) >> s') & 0x0f == (b >> s') & 0x0f
  {
  }

  lemma OtherHalfStays(b: Byte, v: Byte, s: nat, s': nat)
    requires IsShift(4, s) && IsShift(4, s') && s != s' && Fits(v, 4)
    ensures Extract(Insert(b, v, 4, s), 4, s') == Extract(b, 4, s')
  {
    assert Amount(4 - s) == 4 - Amount(s);
    HalfStays(b, v, Amount(s), Amount(s'));
  }

  /** Insertion leaves the other pixels of the byte. */
  lemma OthersStay(b: Byte, v: Byte, d: nat, s: nat, s': nat)
    requires IsShift(d, s) && IsShift(d, s') && s != s' && Fits(v, d)
    ensures Extract(Insert(b, v, d, s), d, s') == Extract(b, d, s')
  {
    if d == 1 {
      OtherBitStays(b, v, s, s');
    } else if d == 2 {
      OtherPairStays(b, v, s, s');
    } else {
      OtherHalfStays(b, v, s, s');
    }
  }

  lemma ExtractedFits(b: Byte, d: nat, s: nat)
    requires IsShift(d, s)
    ensures Fits(Extract(b, d, s), d)
  {
  }

  function ByteOf(d: nat, q: int): int {
    if d == 1 then q / 8 else if d == 2 then q / 4 else q / 2
  }

  /** The first pixel of a byte is in its high bits, or in its low bits if pixels are swapped. */
  function ShiftOf(d: nat, swap: bool, q: int): (s: nat)
    ensures IsPacked(d) ==> IsShift(d, s)
  {
    if d == 1 then (if swap then q % 8 else 7 - q % 8)
    else if d == 2 then (if swap then q % 4 * 2 else (3 - q % 4) * 2)
    else if swap then q % 2 * 4 else (1 - q % 2) * 4
  }

  /** The shifts at which the counters leave a byte: to the left at LeftEnd, to the right at RightEnd. */
  function LeftEnd(d: nat, swap: bool): int {
    if swap then 0 else 8 - d
  }

  function RightEnd(d: nat, swap: bool): int {
    if swap then 8 - d else 0
  }

  /** Byte and shift of pixel q, counted from the place just before the row. */
  ghost function Place(d: nat, swap: bool, q: int): (int, int)
    requires q >= -1
    decreases q + 1
  {
    if q == -1 then (-1, RightEnd(d, swap)) else
      var (p, shift) := Place(d, swap, q - 1);
      if shift == RightEnd(d, swap) then (p + 1, LeftEnd(d, swap)) else (p, if swap then shift + d else shift - d)
  }

  lemma {:induction false} BitPlace(swap: bool, q: int)
    requires q >= -1
    ensures Place(1, swap, q) == (q / 8, if swap then q % 8 else 7 - q % 8)
    decreases q + 1
  {
    if q >= 0 {
      BitPlace(swap, q - 1);
    }
  }

  lemma {:induction false} PairPlace(swap: bool, q: int)
    requires q >= -1
    ensures Place(2, swap, q) == (q / 4, if swap then q % 4 * 2 else (3 - q % 4) * 2)
    decreases q + 1
  {
    if q >= 0 {
      PairPlace(swap, q - 1);
    }
  }

  lemma {:induction false} HalfPlace(swap: bool, q: int)
    requires q >= -1
    ensures Place(4, swap, q) == (q / 2, if swap then q % 2 * 4 else (1 - q % 2) * 4)
    decreases q + 1
  {
    if q >= 0 {
      HalfPlace(swap, q - 1);
    }
  }

  lemma PlaceIs(d: nat, swap: bool, q: int)
    requires IsPacked(d) && q >= -1
    ensures Place(d, swap, q) == (ByteOf(d, q), ShiftOf(d, swap, q))
  {
    if d == 1 {
      BitPlace(swap, q);
    } else if d == 2 {
      PairPlace(swap, q);
    } else {
      HalfPlace(swap, q);
    }
  }

  /** The counters p and shift stand at pixel q. */
  ghost predicate Cursor(d: nat, swap: bool, q: int, p: int, shift: int) {
    q >= -1 && Place(d, swap, q) == (p, shift)
  }

  function PixelAt(row: seq<Byte>, d: nat, swap: bool, q: nat): Byte
    requires IsPacked(d) && q < |row| * PerByte(d)
  {
    Extract(row[ByteOf(d, q)], d, ShiftOf(d, swap, q))
  }

  /** One bit: from the high end of a byte, or from its low end if pixels are swapped. */
  lemma OneBitPixels(row: seq<Byte>, q: nat, b: Byte)
    requires q < |row| * 8 && b == row[q / 8]
    ensures PixelAt(row, 1, false, q)
         == (match q % 8 case 0 => b >> 7 case 1 => (b >> 6) & 1 case 2 => (b >> 5) & 1 case 3 => (b >> 4) & 1
                         case 4 => (b >> 3) & 1 case 5 => (b >> 2) & 1 case 6 => (b >> 1) & 1 case _ => b & 1)
    ensures PixelAt(row, 1, true, q)
         == (match q % 8 case 0 => b & 1 case 1 => (b >> 1) & 1 case 2 => (b >> 2) & 1 case 3 => (b >> 3) & 1
                         case 4 => (b >> 4) & 1 case 5 => (b >> 5) & 1 case 6 => (b >> 6) & 1 case _ => b >> 7)
  {
    assert (b >> 7) & 1 == b >> 7 && b >> 0 == b;
  }

  /** Two and four bits, likewise. */
  lemma TwoBitPixels(row: seq<Byte>, q: nat, b: Byte)
    requires q < |row| * 4 && b == row[q / 4]
    ensures PixelAt(row, 2, false, q)
         == (match q % 4 case 0 => b >> 6 case 1 => (b >> 4) & 3 case 2 => (b >> 2) & 3 case _ => b & 3)
    ensures PixelAt(row, 2, true, q)
         == (match q % 4 case 0 => b & 3 case 1 => (b >> 2) & 3 case 2 => (b >> 4) & 3 case _ => b >> 6)
  {
    assert (b >> 6) & 3 == b >> 6 && b >> 0 == b;
  }

  lemma FourBitPixels(row: seq<Byte>, q: nat, b: Byte)
    requires q < |row| * 2 && b == row[q / 2]
    ensures PixelAt(row, 4, false, q) == (if q % 2 == 0 then b >> 4 else b & 15)
    ensures PixelAt(row, 4, true, q) == (if q % 2 == 0 then b & 15 else b >> 4)
  {
    assert (b >> 4) & 15 == b >> 4 && b >> 0 == b;
  }

  ghost function Pixels(row: seq<Byte>, d: nat, swap: bool): (px: seq<Byte>)
    requires IsPacked(d)
    ensures |px| == |row| * PerByte(d)
    ensures forall q :: 0 <= q < |px| ==> px[q] == PixelAt(row, d, swap, q)
  {
    seq(|row| * PerByte(d), q requires 0 <= q < |row| * PerByte(d) => PixelAt(row, d, swap, q))
  }

  /** Different pixels of one byte have different shifts. */
  lemma ShiftsDiffer(d: nat, swap: bool, q: nat, r: nat)
    requires IsPacked(d) && q != r && ByteOf(d, q) == ByteOf(d, r)
    ensures ShiftOf(d, swap, q) != ShiftOf(d, swap, r)
  {
  }

  /** Replacing the bits at a cursor replaces that pixel and no other. */
  lemma PixelReplaced(row: seq<Byte>, now: seq<Byte>, d: nat, swap: bool, t: nat, p: int, shift: int, v: Byte)
    requires IsPacked(d) && t < |row| * PerByte(d) && Cursor(d, swap, t, p, shift) && Fits(v, d)
    requires 0 <= p < |row| && IsShift(d, shift) && now == row[p := Insert(row[p], v, d, shift)]
    ensures Pixels(now, d, swap) == Pixels(row, d, swap)[t := v]
  {
    PlaceIs(d, swap, t);
    forall q | 0 <= q < |row| * PerByte(d)
      ensures PixelAt(now, d, swap, q) == if q == t then v else PixelAt(row, d, swap, q)
    {
      OnePixel(row, d, swap, t, q, v);
    }
  }

  lemma OnePixel(row: seq<Byte>, d: nat, swap: bool, t: nat, q: nat, v: Byte)
    requires IsPacked(d) && t < |row| * PerByte(d) && q < |row| * PerByte(d) && Fits(v, d)
    ensures var p, s := ByteOf(d, t), ShiftOf(d, swap, t);
            PixelAt(row[p := Insert(row[p], v, d, s)], d, swap, q) == if q == t then v else PixelAt(row, d, swap, q)
  {
    var p, s := ByteOf(d, t), ShiftOf(d, swap, t);
    if q == t {
      InsertedThere(row[p], v, d, s);
    } else if ByteOf(d, q) == p {
      ShiftsDiffer(d, swap, q, t);
      OthersStay(row[p], v, d, s, ShiftOf(d, swap, q));
    }
  }

  /** One pixel to the left, by the shift counters. */
  method StepLeft(d: nat, swap: bool, p: int, shift: int, ghost q: int) returns (p': int, shift': int)
    requires IsPacked(d) && q >= 0 && Cursor(d, swap, q, p, shift)
    ensures Cursor(d, swap, q - 1, p', shift')
  {
    PlaceIs(d, swap, q - 1);
    var start, end, inc: int := 0, 8 - d, d;
    if swap {
      start, end, inc := 8 - d, 0, -(d as int);
    }
    if shift == end {
      p', shift' := p - 1, start;
    } else {
      p', shift' := p, shift + inc;
    }
  }

  /** The counters at the last of n pixels. */
  method LastPixel(d: nat, swap: bool, n: nat) returns (p: int, shift: int)
    requires IsPacked(d) && n > 0
    ensures Cursor(d, swap, n - 1, p, shift)
  {
    PlaceIs(d, swap, n - 1);
    p := ByteOf(d, n - 1);
    LastInByte(d, n);
    var last := (n + PerByte(d) - 1) % PerByte(d);
    shift := (if swap then last else PerByte(d) - 1 - last) * d;
  }

  lemma LastInByte(d: nat, n: nat)
    requires IsPacked(d) && n > 0
    ensures (n + PerByte(d) - 1) % PerByte(d)
         == if d == 1 then (n - 1) % 8 else if d == 2 then (n - 1) % 4 else (n - 1) % 2
  {
  }
}
