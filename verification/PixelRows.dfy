/** A row in which each pixel is repeated: what the expansion of interlaced rows computes. */
module PixelRows {
  ghost function Copies<T>(v: T, n: nat): (r: seq<T>)
    ensures |r| == n && forall j :: 0 <= j < n ==> r[j] == v
  {
    seq(n, _ => v)
  }

  /** k * inc, as a sum. */
  function Times(k: nat, inc: nat): nat {
    if k == 0 then 0 else Times(k - 1, inc) + inc
  }

  lemma {:induction false} TimesIsProduct(k: nat, inc: nat)
    ensures Times(k, inc) == k * inc
  {
    if k > 0 {
      TimesIsProduct(k - 1, inc);
      assert k * inc == (k - 1) * inc + inc;
    }
  }

  lemma {:induction false} TimesGrows(k: nat, n: nat, inc: nat)
    requires k <= n && inc > 0
    ensures Times(k, inc) <= Times(n, inc) && n <= Times(n, inc)
    decreases n
  {
    if n > 0 {
      TimesGrows(if k == n then k - 1 else k, n - 1, inc);
    }
  }

  /** Pixels k, ..., n - 1, each inc times. */
  ghost function Spread<T>(px: seq<T>, k: nat, n: nat, inc: nat): (r: seq<T>)
    requires k <= n <= |px|
    ensures |r| == Times(n - k, inc)
    decreases n - k
  {
    if k == n then [] else Copies(px[k], inc) + Spread(px, k + 1, n, inc)
  }

  /** The whole row: the first n pixels are spread over n * inc places, and the rest is as it was. */
  ghost function Expanded<T>(px: seq<T>, n: nat, inc: nat): (r: seq<T>)
    requires n <= |px| && Times(n, inc) <= |px|
    ensures |r| == |px|
  {
    Spread(px, 0, n, inc) + px[Times(n, inc)..]
  }

  /** Places a * inc + j, for every j below inc, hold original pixel a; here the pixels are counted from k. */
  lemma {:induction false} SpreadAt<T>(px: seq<T>, k: nat, n: nat, inc: nat, a: nat, j: nat)
    requires k + a < n <= |px| && j < inc
    ensures Times(a, inc) + j < Times(n - k, inc) && Spread(px, k, n, inc)[Times(a, inc) + j] == px[k + a]
    decreases a
  {
    var rest := Spread(px, k + 1, n, inc);
    assert Spread(px, k, n, inc) == Copies(px[k], inc) + rest;
    if a > 0 {
      SpreadAt(px, k + 1, n, inc, a - 1, j);
      var q := Times(a - 1, inc) + j;
      assert (Copies(px[k], inc) + rest)[inc + q] == rest[q];
    } else {
      assert (Copies(px[k], inc) + rest)[j] == px[k];
    }
  }

  /** Place i * inc + j of the expanded row holds pixel i, and the places from n * inc on are unchanged. */
  lemma ExpandedAt<T>(px: seq<T>, n: nat, inc: nat, i: nat, j: nat)
    requires n <= |px| && Times(n, inc) == n * inc <= |px| && i < n && j < inc
    ensures i * inc + j < n * inc && Expanded(px, n, inc)[i * inc + j] == px[i]
    ensures Expanded(px, n, inc)[n * inc..] == px[n * inc..]
  {
    SpreadAt(px, 0, n, inc, i, j);
    TimesIsProduct(i, inc);
  }

  /** With the last n - k pixels expanded, the places below k * inc are untouched. */
  ghost predicate Progress<T>(was: seq<T>, px: seq<T>, k: nat, n: nat, inc: nat) {
    && k <= n <= |was| && |px| == |was| && Times(k, inc) <= Times(n, inc) <= |was|
    && px == was[..Times(k, inc)] + Spread(was, k, n, inc) + was[Times(n, inc)..]
  }

  /** The next source pixel to read is not overwritten yet. */
  lemma SourceIntact<T>(was: seq<T>, px: seq<T>, k: nat, n: nat, inc: nat)
    requires Progress(was, px, k, n, inc) && k > 0 && inc > 0
    ensures px[k - 1] == was[k - 1] && k <= Times(k, inc)
  {
    TimesGrows(k, k, inc);
    assert px[k - 1] == was[..Times(k, inc)][k - 1];
  }

  /** Of the current pixel, j copies are written. */
  ghost predicate Filling<T>(px: seq<T>, now: seq<T>, v: T, t: nat, j: nat) {
    && j <= t + 1 <= |px| && |now| == |px|
    && now == px[..t + 1 - j] + Copies(v, j) + px[t + 1..]
  }

  lemma FillNone<T>(px: seq<T>, v: T, t: nat)
    requires t < |px|
    ensures Filling(px, px, v, t, 0)
  {
    NothingBetween(px, t + 1, Copies(v, 0));
  }

  lemma FillOne<T>(px: seq<T>, now: seq<T>, v: T, t: nat, j: nat)
    requires Filling(px, now, v, t, j) && j <= t
    ensures Filling(px, now[t - j := v], v, t, j + 1)
  {
    assert px[..t + 1 - j] == px[..t - j] + [px[t - j]];
    assert Copies(v, j + 1) == [v] + Copies(v, j);
  }

  lemma FilledAll<T>(was: seq<T>, px: seq<T>, now: seq<T>, k: nat, n: nat, inc: nat)
    requires Progress(was, px, k, n, inc) && k > 0 && inc > 0
    requires Filling(px, now, was[k - 1], Times(k, inc) - 1, inc)
    ensures Progress(was, now, k - 1, n, inc)
  {
    var middle, right := Spread(was, k, n, inc), was[Times(n, inc)..];
    AllCopies(px, now, was[k - 1], Times(k - 1, inc), inc);
    FilledParts(was, px, now, Times(k - 1, inc), Times(k, inc), middle, right, Copies(was[k - 1], inc));
    SpreadOneMore(was, k, n, inc);
  }

  lemma AllCopies<T>(px: seq<T>, now: seq<T>, v: T, a: nat, inc: nat)
    requires inc > 0 && Filling(px, now, v, a + inc - 1, inc)
    ensures now == px[..a] + Copies(v, inc) + px[a + inc..]
  {
  }

  lemma FilledParts<T>(was: seq<T>, px: seq<T>, now: seq<T>, a: nat, b: nat, middle: seq<T>, right: seq<T>, c: seq<T>)
    requires b <= |was| && b == a + |c| && px == was[..b] + middle + right
    requires now == px[..a] + c + px[b..]
    ensures now == was[..a] + (c + middle) + right
  {
    Rejoin(was[..b], middle, right, c, a, px, now);
    TakeTwice(was, b, a);
  }

  lemma SpreadOneMore<T>(px: seq<T>, k: nat, n: nat, inc: nat)
    requires 0 < k <= n <= |px|
    ensures Spread(px, k - 1, n, inc) == Copies(px[k - 1], inc) + Spread(px, k, n, inc)
  {
  }

  lemma TakeTwice<T>(s: seq<T>, b: nat, a: nat)
    requires a <= b <= |s|
    ensures s[..b][..a] == s[..a]
  {
  }

  lemma Rejoin<T>(left: seq<T>, middle: seq<T>, right: seq<T>, c: seq<T>, a: nat, px: seq<T>, now: seq<T>)
    requires a + |c| == |left| && px == left + middle + right && now == px[..a] + c + px[|left|..]
    ensures now == left[..a] + (c + middle) + right
  {
  }

  lemma Finished<T>(was: seq<T>, px: seq<T>, n: nat, inc: nat)
    requires Progress(was, px, 0, n, inc)
    ensures px == Expanded(was, n, inc)
  {
    assert was[..0] == [];
  }

  lemma Started<T>(was: seq<T>, n: nat, inc: nat)
    requires n <= |was| && Times(n, inc) <= |was|
    ensures Progress(was, was, n, n, inc)
  {
    NothingBetween(was, Times(n, inc), Spread(was, n, n, inc));
  }

  lemma NothingBetween<T>(s: seq<T>, t: nat, middle: seq<T>)
    requires t <= |s| && middle == []
    ensures s == s[..t] + middle + s[t..]
  {
  }
}
