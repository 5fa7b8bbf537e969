/** Expansion of an interlaced row in place, from right to left. */
module Interlace {
  import opened Adam7
  import opened PixelBits
  import opened PixelRows

  /** Bytes of a row of pixels. */
  function RowBytes(depth: nat, width: nat): nat {
    if depth >= 8 then width * (depth / 8) else (width * depth + 7) / 8
  }

  /** The depths of a row: packed pixels, or 1 to 8 whole bytes. */
  predicate IsDepth(d: nat) {
    IsPacked(d) || (d % 8 == 0 && 8 <= d <= 64)
  }

  class RowInfo {
    var width: nat
    var rowbytes: nat
    var pixelDepth: nat
  }

  /** Writes one packed pixel. */
  method PutPixel(row: array<Byte>, d: nat, swap: bool, dp: int, dshift: int, v: Byte, ghost t: nat)
    requires IsPacked(d) && t < row.Length * PerByte(d) && Cursor(d, swap, t, dp, dshift) && Fits(v, d)
    modifies row
    ensures Pixels(row[..], d, swap) == old(Pixels(row[..], d, swap))[t := v]
  {
    ghost var was := row[..];
    PlaceIs(d, swap, t);
    OrMasked(row, d, dp, dshift, v);
    PixelReplaced(was, row[..], d, swap, t, dp, dshift, v);
  }

  /** Reads the pixel under the source cursor. */
  method GetPixel(row: array<Byte>, d: nat, swap: bool, sp: int, sshift: int, ghost q: nat) returns (v: Byte)
    requires IsPacked(d) && q < row.Length * PerByte(d) && Cursor(d, swap, q, sp, sshift)
    ensures v == Pixels(row[..], d, swap)[q] && Fits(v, d)
  {
    PlaceIs(d, swap, q);
    assert Pixels(row[..], d, swap)[q] == PixelAt(row[..], d, swap, q);
    v := (row[sp] >> Amount(sshift)) & LowMask(d);
    ExtractedFits(row[sp], d, sshift);
  }

  /** Clears the bits of one pixel and sets them to v. */
  method OrMasked(row: array<Byte>, d: nat, dp: nat, dshift: nat, v: Byte)
    requires dp < row.Length && IsShift(d, dshift)
    modifies row
    ensures row[..] == old(row[..])[dp := Insert(old(row[dp]), v, d, dshift)]
  {
    row[dp] := row[dp] & Others(d, dshift);
    row[dp] := row[dp] | (v << Amount(dshift));
  }

  /** Writes a packed pixel inc times, from place t down. */
  method FillPacked(row: array<Byte>, d: nat, swap: bool, dp0: int, dshift0: int, v: Byte, inc: nat, ghost t: nat)
    returns (dp: int, dshift: int)
    requires IsPacked(d) && t < row.Length * PerByte(d) && Cursor(d, swap, t, dp0, dshift0) && Fits(v, d)
    requires inc <= t + 1
    modifies row
    ensures Filling(old(Pixels(row[..], d, swap)), Pixels(row[..], d, swap), v, t, inc)
    ensures Cursor(d, swap, t - inc, dp, dshift)
  {
    ghost var px := Pixels(row[..], d, swap);
    assert px[..t + 1] + Copies(v, 0) + px[t + 1..] == px;
    dp, dshift := dp0, dshift0;
    for j := 0 to inc
      invariant Filling(px, Pixels(row[..], d, swap), v, t, j) && Cursor(d, swap, t - j, dp, dshift)
    {
      FillOne(px, Pixels(row[..], d, swap), v, t, j);
      PutPixel(row, d, swap, dp, dshift, v, t - j);
      dp, dshift := StepLeft(d, swap, dp, dshift, t - j);
    }
  }

  /** The places from k * inc on are written, and the counters stand at the next source pixel and place. */
  ghost predicate Stage(was: seq<Byte>, row: seq<Byte>, d: nat, swap: bool, k: nat, n: nat, inc: nat,
                        sp: int, sshift: int, dp: int, dshift: int)
    requires IsPacked(d)
  {
    && Progress(was, Pixels(row, d, swap), k, n, inc)
    && Cursor(d, swap, k - 1, sp, sshift) && Cursor(d, swap, Times(k, inc) - 1, dp, dshift)
  }

  /** One source pixel: read at the source cursor, and written inc times at the destination cursor. */
  method ExpandPixel(row: array<Byte>, d: nat, swap: bool, sp0: int, sshift0: int, dp0: int, dshift0: int,
                     inc: nat, ghost was: seq<Byte>, ghost k: nat, ghost n: nat)
    returns (sp: int, sshift: int, dp: int, dshift: int)
    requires IsPacked(d) && inc > 0 && k > 0 && Stage(was, row[..], d, swap, k, n, inc, sp0, sshift0, dp0, dshift0)
    modifies row
    ensures Stage(was, row[..], d, swap, k - 1, n, inc, sp, sshift, dp, dshift)
  {
    ghost var px := Pixels(row[..], d, swap);
    SourceIntact(was, px, k, n, inc);
    var v := GetPixel(row, d, swap, sp0, sshift0, k - 1);
    dp, dshift := FillPacked(row, d, swap, dp0, dshift0, v, inc, Times(k, inc) - 1);
    FilledAll(was, px, Pixels(row[..], d, swap), k, n, inc);
    sp, sshift := StepLeft(d, swap, sp0, sshift0, k - 1);
  }

  /** Packed pixels: every pixel is repeated inc times, and the pixels after them stay. */
  method ExpandPacked(row: array<Byte>, width: nat, inc: nat, d: nat, swap: bool)
    requires IsPacked(d) && inc > 0 && 0 < width <= Times(width, inc) <= row.Length * PerByte(d)
    modifies row
    ensures Pixels(row[..], d, swap) == Expanded(old(Pixels(row[..], d, swap)), width, inc)
  {
    ghost var was := Pixels(row[..], d, swap);
    var sp, sshift := LastPixel(d, swap, width);
    TimesIsProduct(width, inc);
    var finalWidth := width * inc;
    var dp, dshift := LastPixel(d, swap, finalWidth);
    ghost var k := width;
    Started(was, width, inc);
    for i := 0 to width
      invariant k == width - i && Stage(was, row[..], d, swap, k, width, inc, sp, sshift, dp, dshift)
    {
      sp, sshift, dp, dshift := ExpandPixel(row, d, swap, sp, sshift, dp, dshift, inc, was, k, width);
      k := k - 1;
    }
    Finished(was, Pixels(row[..], d, swap), width, inc);
  }

  /** The first n pixels of pb bytes each. */
  ghost function Chunks(row: seq<Byte>, pb: nat, n: nat): (px: seq<seq<Byte>>)
    requires Times(n, pb) <= |row|
    ensures |px| == n
  {
    if n == 0 then [] else Chunks(row, pb, n - 1) + [row[Times(n - 1, pb)..Times(n, pb)]]
  }

  lemma {:induction false} ChunkAt(row: seq<Byte>, pb: nat, n: nat, q: nat)
    requires pb > 0 && q < n && Times(n, pb) <= |row|
    ensures Times(q, pb) + pb == Times(q + 1, pb) <= Times(n, pb)
    ensures Chunks(row, pb, n)[q] == row[Times(q, pb)..Times(q, pb) + pb]
    decreases n
  {
    if q < n - 1 {
      ChunkAt(row, pb, n - 1, q);
    }
  }

  /** Overwriting one pixel changes that pixel and no other. */
  lemma {:induction false} ChunkReplaced(row: seq<Byte>, now: seq<Byte>, pb: nat, n: nat, t: nat, v: seq<Byte>)
    requires pb > 0 && |v| == pb && Times(n, pb) <= |row| && Times(t, pb) + pb <= |row|
    requires now == row[..Times(t, pb)] + v + row[Times(t, pb) + pb..]
    ensures Chunks(now, pb, n) == if t < n then Chunks(row, pb, n)[t := v] else Chunks(row, pb, n)
    decreases n
  {
    if n > 0 {
      var q := n - 1;
      ChunkReplaced(row, now, pb, q, t, v);
      if t < q {
        TimesGrows(t + 1, q, pb);
        assert now[Times(q, pb)..Times(n, pb)] == row[Times(q, pb)..Times(n, pb)];
      } else if t == q {
        assert now[Times(q, pb)..Times(n, pb)] == v;
      } else {
        TimesGrows(n, t, pb);
        assert now[Times(q, pb)..Times(n, pb)] == row[Times(q, pb)..Times(n, pb)];
      }
    }
  }

  /** Copies the bytes of v to position dp. */
  method MemCopy(row: array<Byte>, dp: nat, v: seq<Byte>)
    requires dp + |v| <= row.Length
    modifies row
    ensures row[..] == old(row[..dp]) + v + old(row[dp + |v|..])
  {
    for i := 0 to |v|
      invariant row[..] == old(row[..dp]) + v[..i] + old(row[dp + i..])
    {
      row[dp + i] := v[i];
    }
  }

  /** Writes a pixel of whole bytes inc times, from place t down. */
  method FillBytes(row: array<Byte>, dp0: int, v: seq<Byte>, inc: nat, pb: nat, ghost n: nat, ghost t: nat)
    returns (dp: int)
    requires pb == |v| > 0 && t < n && Times(n, pb) <= row.Length && dp0 == Times(t, pb) && inc <= t + 1
    modifies row
    ensures Filling(old(Chunks(row[..], pb, n)), Chunks(row[..], pb, n), v, t, inc)
    ensures row[Times(n, pb)..] == old(row[Times(n, pb)..])
    ensures dp + pb == Times(t + 1 - inc, pb)
  {
    ghost var px := Chunks(row[..], pb, n);
    FillNone(px, v, t);
    dp := dp0;
    ghost var at := t + 1;
    for j := 0 to inc
      invariant at == t + 1 - j && dp + pb == Times(at, pb) && Filling(px, Chunks(row[..], pb, n), v, t, j)
      invariant row[Times(n, pb)..] == old(row[Times(n, pb)..])
    {
      at := at - 1;
      FillChunk(row, dp, v, pb, n, at, px, t, j);
      dp := dp - pb;
    }
  }

  /** One more copy. */
  method FillChunk(row: array<Byte>, dp: nat, v: seq<Byte>, ghost pb: nat, ghost n: nat, ghost at: nat,
                   ghost px: seq<seq<Byte>>, ghost t: nat, ghost j: nat)
    requires pb == |v| > 0 && t < n && Times(n, pb) <= row.Length && j <= t && at == t - j && dp == Times(at, pb)
    requires Filling(px, Chunks(row[..], pb, n), v, t, j)
    modifies row
    ensures Filling(px, Chunks(row[..], pb, n), v, t, j + 1)
    ensures row[Times(n, pb)..] == old(row[Times(n, pb)..])
  {
    FillOne(px, Chunks(row[..], pb, n), v, t, j);
    PutChunk(row, dp, v, pb, n, at);
  }

  method PutChunk(row: array<Byte>, dp: nat, v: seq<Byte>, ghost pb: nat, ghost n: nat, ghost t: nat)
    requires pb == |v| > 0 && t < n && Times(n, pb) <= row.Length && dp == Times(t, pb)
    modifies row
    ensures Chunks(row[..], pb, n) == old(Chunks(row[..], pb, n))[t := v]
    ensures row[Times(n, pb)..] == old(row[Times(n, pb)..])
  {
    ghost var was := row[..];
    TimesGrows(t + 1, n, pb);
    MemCopy(row, dp, v);
    ChunkReplaced(was, row[..], pb, n, t, v);
  }

  /** Pixels of whole bytes: every pixel is repeated inc times, and the bytes after them stay. */
  method ExpandBytes(row: array<Byte>, width: nat, inc: nat, pb: nat)
    requires inc > 0 && pb > 0 && 0 < width <= Times(width, inc) && Times(Times(width, inc), pb) <= row.Length
    modifies row
    ensures Chunks(row[..], pb, Times(width, inc)) == Expanded(old(Chunks(row[..], pb, Times(width, inc))), width, inc)
    ensures row[Times(Times(width, inc), pb)..] == old(row[Times(Times(width, inc), pb)..])
  {
    ghost var n := Times(width, inc);
    ghost var was := Chunks(row[..], pb, n);
    TimesIsProduct(width, inc);
    TimesIsProduct(width - 1, pb);
    TimesIsProduct(n - 1, pb);
    var finalWidth := width * inc;
    var sp: int := (width - 1) * pb;
    var dp: int := (finalWidth - 1) * pb;
    ghost var k := width;
    Started(was, width, inc);
    for i := 0 to width
      invariant k == width - i && ByteStage(was, row[..], pb, k, width, n, inc, sp, dp)
      invariant row[Times(n, pb)..] == old(row[Times(n, pb)..])
    {
      dp := ExpandChunk(row, sp, dp, inc, pb, was, k, width, n);
      sp := sp - pb;
      k := k - 1;
    }
    Finished(was, Chunks(row[..], pb, n), width, inc);
  }

  ghost predicate ByteStage(was: seq<seq<Byte>>, row: seq<Byte>, pb: nat, k: nat, width: nat, n: nat, inc: nat,
                            sp: int, dp: int) {
    && Times(n, pb) <= |row| && n == Times(width, inc)
    && Progress(was, Chunks(row, pb, n), k, width, inc)
    && sp + pb == Times(k, pb) && dp + pb == Times(Times(k, inc), pb)
  }

  method ExpandChunk(row: array<Byte>, sp: int, dp0: int, inc: nat, pb: nat,
                     ghost was: seq<seq<Byte>>, ghost k: nat, ghost width: nat, ghost n: nat)
    returns (dp: int)
    requires inc > 0 && pb > 0 && k > 0 && ByteStage(was, row[..], pb, k, width, n, inc, sp, dp0)
    modifies row
    ensures ByteStage(was, row[..], pb, k - 1, width, n, inc, sp - pb, dp)
    ensures row[Times(n, pb)..] == old(row[Times(n, pb)..])
  {
    ghost var px := Chunks(row[..], pb, n);
    SourceIntact(was, px, k, width, inc);
    ChunkAt(row[..], pb, n, k - 1);
    var v := row[sp..sp + pb];
    dp := FillBytes(row, dp0, v, inc, pb, n, Times(k, inc) - 1);
    FilledAll(was, px, Chunks(row[..], pb, n), k, width, inc);
  }

  /** What the expansion leaves in the row. */
  ghost predicate RowExpanded(was: seq<Byte>, row: seq<Byte>, d: nat, swap: bool, n: nat, inc: nat)
    requires IsDepth(d)
  {
    && |row| == |was|
    && if IsPacked(d) then
      && n <= Times(n, inc) <= |was| * PerByte(d)
      && Pixels(row, d, swap) == Expanded(Pixels(was, d, swap), n, inc)
    else
      && n <= Times(n, inc) && Times(Times(n, inc), d / 8) <= |was|
      && Chunks(row, d / 8, Times(n, inc)) == Expanded(Chunks(was, d / 8, Times(n, inc)), n, inc)
      && row[Times(Times(n, inc), d / 8)..] == was[Times(Times(n, inc), d / 8)..]
  }

  /** Pixel i * inc + j of the result is pixel i of the original; for packed pixels, in either order. */
  lemma ExpandedPixel(was: seq<Byte>, row: seq<Byte>, d: nat, swap: bool, n: nat, inc: nat, i: nat, j: nat)
    requires IsDepth(d) && RowExpanded(was, row, d, swap, n, inc) && i < n && j < inc
    ensures IsPacked(d) ==>
      && i * inc + j < |row| * PerByte(d) && i < |was| * PerByte(d)
      && PixelAt(row, d, swap, i * inc + j) == PixelAt(was, d, swap, i)
    ensures !IsPacked(d) ==> var pb := d / 8;
      && Times(i * inc + j, pb) + pb <= |row| && Times(i, pb) + pb <= |was|
      && row[Times(i * inc + j, pb)..Times(i * inc + j, pb) + pb] == was[Times(i, pb)..Times(i, pb) + pb]
  {
    TimesIsProduct(n, inc);
    if IsPacked(d) {
      ExpandedAt(Pixels(was, d, swap), n, inc, i, j);
      assert PixelAt(row, d, swap, i * inc + j) == Pixels(row, d, swap)[i * inc + j];
    } else {
      var px := Chunks(was, d / 8, n * inc);
      ExpandedAt(px, n, inc, i, j);
      ChunkAt(row, d / 8, n * inc, i * inc + j);
      ChunkAt(was, d / 8, n * inc, i);
    }
  }

  /** A packed pixel after the last one written is as it was. */
  lemma LaterPixelStays(was: seq<Byte>, row: seq<Byte>, d: nat, swap: bool, n: nat, inc: nat, q: nat)
    requires IsPacked(d) && RowExpanded(was, row, d, swap, n, inc) && n * inc <= q < |row| * PerByte(d)
    ensures PixelAt(row, d, swap, q) == PixelAt(was, d, swap, q)
  {
    TimesIsProduct(n, inc);
    assert PixelAt(row, d, swap, q) == Pixels(row, d, swap)[q];
    assert Expanded(Pixels(was, d, swap), n, inc)[q] == Pixels(was, d, swap)[q];
  }

  /** The number of pixels or bytes that the expansion needs is there. */
  lemma EnoughRoom(d: nat, n: nat, inc: nat, room: nat)
    requires IsDepth(d) && inc > 0 && RowBytes(d, n * inc) <= room
    ensures n <= Times(n, inc) == n * inc
    ensures IsPacked(d) ==> Times(n, inc) <= room * PerByte(d)
    ensures !IsPacked(d) ==> Times(Times(n, inc), d / 8) <= room
  {
    TimesIsProduct(n, inc);
    TimesGrows(n, n, inc);
    TimesIsProduct(n * inc, d / 8);
    EnoughBytes(d, n * inc, room);
  }

  lemma EnoughBytes(d: nat, width: nat, room: nat)
    requires IsDepth(d) && RowBytes(d, width) <= room
    ensures IsPacked(d) ==> width <= room * PerByte(d)
    ensures !IsPacked(d) ==> width * (d / 8) <= room
  {
  }

  /** The bytes of a row are its bits, rounded up. */
  lemma RowBytesRoundUp(d: nat, width: nat)
    requires IsDepth(d)
    ensures width * d <= 8 * RowBytes(d, width) <= width * d + 7
  {
    if d >= 8 {
      assert d == 8 * (d / 8);
      assert width * (8 * (d / 8)) == 8 * (width * (d / 8));
    }
  }

  /** The row is widened in place, and its description with it. */
  method DoReadInterlace(info: RowInfo, row: array<Byte>, pass: nat, packswap: bool)
    requires pass < 7 && info.width > 0 && IsDepth(info.pixelDepth)
    requires RowBytes(info.pixelDepth, info.width * PassInc(pass)) <= row.Length
    modifies info, row
    ensures info.pixelDepth == old(info.pixelDepth) && info.width == old(info.width) * PassInc(pass)
    ensures info.rowbytes == RowBytes(info.pixelDepth, info.width)
    ensures info.width * info.pixelDepth <= 8 * info.rowbytes <= info.width * info.pixelDepth + 7
    ensures RowExpanded(old(row[..]), row[..], info.pixelDepth, packswap, old(info.width), PassInc(pass))
  {
    var finalWidth := info.width * PassInc(pass);
    EnoughRoom(info.pixelDepth, info.width, PassInc(pass), row.Length);
    if IsPacked(info.pixelDepth) {
      ExpandPacked(row, info.width, PassInc(pass), info.pixelDepth, packswap);
    } else {
      ExpandBytes(row, info.width, PassInc(pass), info.pixelDepth / 8);
    }
    info.width := finalWidth;
    info.rowbytes := RowBytes(info.pixelDepth, finalWidth);
    RowBytesRoundUp(info.pixelDepth, finalWidth);
  }

  /** The bytes allocated for a row: the width rounded up to 8 pixels, a byte and a pixel more. */
  function RowBufferBytes(width: nat, maxDepth: nat): nat {
    RowBytes(maxDepth, (width + 7) / 8 * 8) + 1 + (maxDepth + 7) / 8
  }

  lemma RoundedUp(width: nat, pass: nat)
    requires pass < 7
    ensures PassWidth(width, pass) * PassInc(pass) <= (width + 7) / 8 * 8
  {
    var eights := (width + 7) / 8;
    var start := PassStart(pass);
    QuotientCounts(width, start, PassInc(pass));
    if PassInc(pass) == 8 {
      assert Quotient(width, start, 8) <= eights;
    } else if PassInc(pass) == 4 {
      assert Quotient(width, start, 4) <= 2 * eights;
    } else if PassInc(pass) == 2 {
      assert Quotient(width, start, 2) <= 4 * eights;
    }
  }

  lemma RowBytesGrows(d: nat, maxDepth: nat, w: nat, v: nat)
    requires IsDepth(d) && d <= maxDepth && w <= v
    ensures RowBytes(d, w) <= RowBytes(maxDepth, v)
  {
    if maxDepth >= 8 {
      Product(w, v, if d >= 8 then d / 8 else 1, maxDepth / 8);
    } else {
      Product(w, v, d, maxDepth);
    }
  }

  lemma Product(a: nat, b: nat, c: nat, d: nat)
    requires a <= b && c <= d
    ensures a * c <= b * d
  {
    assert a * c <= b * c <= b * d;
  }

  /**
   * The expanded row of any pass, after the filter byte, ends a pixel before the end of the buffer; and
   * the widths stay in 32 bits.
   */
  lemma ExpandedRowFits(width: nat, pass: nat, depth: nat, maxDepth: nat)
    requires pass < 7 && IsDepth(depth) && depth <= maxDepth
    ensures var final := PassWidth(width, pass) * PassInc(pass);
      && 1 + RowBytes(depth, final) + (maxDepth + 7) / 8 <= RowBufferBytes(width, maxDepth)
      && (width <= 0x7fff_ffff ==> final < 0x1_0000_0000)
  {
    RoundedUp(width, pass);
    RowBytesGrows(depth, maxDepth, PassWidth(width, pass) * PassInc(pass), (width + 7) / 8 * 8);
  }
}
