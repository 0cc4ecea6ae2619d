/** The integer parts of the fractal example program
    (docs/sphinx/examples/fractal.cpp): averaging the RGB samples of a
    multisampled pixel, storing a pixel in a tile buffer, counting the
    tiles of an image and dealing them out to worker threads. */
module Fractal {
  import opened Wrappers
  import opened PixelBuffer
  import Tiles
  import Arith

  // ---------------------------------------------------------------
  // Averaging samples.

  type Byte = x: nat | x < 256

  /** An 8-bit RGB value. */
  type Rgb = v: seq<Byte> | |v| == 3 witness [0, 0, 0]

  /** The sum of channel `c` over the samples. */
  function Sum(samples: seq<Rgb>, c: nat): nat
    requires c < 3
  {
    if samples == [] then 0 else Sum(samples[..|samples| - 1], c) + samples[|samples| - 1][c]
  }

  /** The smallest and largest value of channel `c` over the samples. */
  function Least(samples: seq<Rgb>, c: nat): Byte
    requires |samples| > 0 && c < 3
  {
    if |samples| == 1 then samples[0][c]
    else
      var m := Least(samples[..|samples| - 1], c);
      if samples[|samples| - 1][c] < m then samples[|samples| - 1][c] else m
  }

  function Greatest(samples: seq<Rgb>, c: nat): Byte
    requires |samples| > 0 && c < 3
  {
    if |samples| == 1 then samples[0][c]
    else
      var m := Greatest(samples[..|samples| - 1], c);
      if samples[|samples| - 1][c] > m then samples[|samples| - 1][c] else m
  }

  /** Multiplication is monotone. */
  lemma MulMono(a: nat, b: nat, c: nat)
    ensures a <= b ==> a * c <= b * c
  {
    if a <= b {
      Arith.MulLe(a, b, c);
    }
  }

  /** Adding a value between the new bounds to a sum of `n - 1` values
      keeps the sum between `n` times the bounds. */
  lemma AddBetween(n: nat, lo: nat, hi: nat, s: nat, v: nat, lo2: nat, hi2: nat)
    requires n > 0 && (n - 1) * lo <= s <= (n - 1) * hi
    requires lo2 <= lo && lo2 <= v && hi <= hi2 && v <= hi2
    ensures n * lo2 <= s + v <= n * hi2
  {
    Arith.MulLe(lo2, lo, n - 1);
    Arith.MulLe(hi, hi2, n - 1);
    var k: nat := n - 1;
    assert n * lo2 == k * lo2 + lo2;
    assert n * hi2 == k * hi2 + hi2;
  }

  /** `n` samples sum to between `n` times the least and `n` times the
      greatest. */
  lemma {:induction false} SumBetween(samples: seq<Rgb>, c: nat)
    requires |samples| > 0 && c < 3
    ensures |samples| * Least(samples, c) <= Sum(samples, c) <= |samples| * Greatest(samples, c)
  {
    var n := |samples|;
    var init := samples[..n - 1];
    if n > 1 {
      SumBetween(init, c);
      AddBetween(n, Least(init, c), Greatest(init, c), Sum(init, c), samples[n - 1][c],
                 Least(samples, c), Greatest(samples, c));
    } else {
      assert init == [];
    }
  }

  /** With at most 257 samples of 8 bits the 16-bit accumulator of
      `blend_samples` never wraps. */
  lemma SumFits(samples: seq<Rgb>, c: nat)
    requires 0 < |samples| <= 257 && c < 3
    ensures Sum(samples, c) < 65536
  {
    SumBetween(samples, c);
    FitsIn16(|samples|, Greatest(samples, c), Sum(samples, c));
  }

  lemma FitsIn16(n: nat, g: nat, s: nat)
    requires n <= 257 && g <= 255 && s <= n * g
    ensures s < 65536
  {
    MulMono(g, 255, n);
    MulMono(n, 257, 255);
    assert n * g == g * n;
  }

  /** The mean of `n` values summing to `total`, rounded to the nearest
      integer, halves up. */
  function RoundedMean(total: nat, n: nat): (r: nat)
    requires n > 0
    ensures 2 * (if n * r >= total then n * r - total else total - n * r) <= n
  {
    var q := total / n;
    var m := total % n;
    assert total == q * n + m;
    if 2 * m >= n then
      assert n * (q + 1) == total + (n - m);
      q + 1
    else
      assert n * q == total - m;
      q
  }

  /** A rounded mean of values between `lo` and `hi` is between them. */
  lemma MeanBetween(total: nat, n: nat, lo: nat, hi: nat)
    requires n > 0 && n * lo <= total <= n * hi
    ensures lo <= RoundedMean(total, n) <= hi
  {
    QuotientAtLeast(total, n, lo);
    QuotientAtMost(total, n, hi);
  }

  lemma QuotientAtLeast(total: nat, n: nat, lo: nat)
    requires n > 0 && n * lo <= total
    ensures lo <= total / n
  {
    var q: nat, m: nat := total / n, total % n;
    assert total == q * n + m && m < n;
    var next: nat := q + 1;
    MulMono(next, lo, n);
    assert next * n == q * n + n;
  }

  lemma QuotientAtMost(total: nat, n: nat, hi: nat)
    requires n > 0 && total <= n * hi
    ensures total / n <= hi
    ensures total / n == hi ==> total % n == 0
  {
    var q: nat, m: nat := total / n, total % n;
    assert total == q * n + m;
    var next: nat := hi + 1;
    MulMono(next, q, n);
    assert next * n == hi * n + n;
  }

  /** The rounded mean of the samples lies between the least and
      greatest sample, so it is an 8-bit value. */
  lemma RoundedMeanBetween(samples: seq<Rgb>, c: nat)
    requires |samples| > 0 && c < 3
    ensures Least(samples, c) <= RoundedMean(Sum(samples, c), |samples|) <= Greatest(samples, c)
  {
    SumBetween(samples, c);
    MeanBetween(Sum(samples, c), |samples|, Least(samples, c), Greatest(samples, c));
  }

  /** The rounding step as written: up when the remainder is at least
      half the count, rounded down. This is the nearest integer for an
      even count but not for an odd one. */
  function RoundUpAsWritten(total: nat, n: nat): (r: nat)
    requires n > 0
    ensures r == total / n || r == total / n + 1
  {
    if total % n >= n / 2 then total / n + 1 else total / n
  }

  /** For an even count, such as the 16 samples of the program, the
      rounding as written is the rounded mean. */
  lemma RoundUpEvenAgrees(total: nat, n: nat)
    requires n > 0 && n % 2 == 0
    ensures RoundUpAsWritten(total, n) == RoundedMean(total, n)
  {
  }

  /** For one sample the rounding as written adds one to it, and for
      three samples 1, 0, 0 it gives 1 rather than 0. */
  lemma RoundUpOddCounterexample()
    ensures RoundUpAsWritten(7, 1) == 8 && RoundedMean(7, 1) == 7
    ensures RoundUpAsWritten(1, 3) == 1 && RoundedMean(1, 3) == 0
  {
  }

  /** The 8-bit result of a channel from its 16-bit accumulator: the
      rounded mean, cut to 8 bits. */
  function Channel(accum: nat, n: nat): (r: Byte)
    requires n > 0
    ensures r == RoundedMean(accum, n) % 256
  {
    var base := (accum / n) % 256;
    if 2 * (accum % n) >= n then (base + 1) % 256 else base
  }

  /** Adds up channel `c` in a 16-bit accumulator. */
  method Accumulate(samples: seq<Rgb>, c: nat) returns (accum: nat)
    requires c < 3
    ensures accum == Sum(samples, c) % 65536
  {
    accum := 0;
    var j := 0;
    while j < |samples|
      invariant 0 <= j <= |samples|
      invariant accum == Sum(samples[..j], c) % 65536
    {
      assert samples[..j + 1][..j] == samples[..j];
      ModAdd(Sum(samples[..j], c), samples[j][c], 65536);
      accum := (accum + samples[j][c]) % 65536;
      j := j + 1;
    }
    assert samples[..j] == samples;
  }

  /** Adding to a remainder is adding to the number. */
  lemma ModAdd(a: nat, b: nat, m: nat)
    requires m > 0
    ensures (a % m + b) % m == (a + b) % m
  {
    var q: nat, r: nat := a / m, a % m;
    var y: nat := r + b;
    var yq: nat, yr: nat := y / m, y % m;
    assert a == q * m + r;
    assert y == yq * m + yr;
    var k: nat := q + yq;
    assert k * m == q * m + yq * m;
    Tiles.DivModUnique(k, yr, m);
  }

  /** The pixel `blend_samples` computes. */
  function Blend(samples: seq<Rgb>): (r: Rgb)
    requires |samples| > 0
  {
    var n := |samples|;
    [Channel(Sum(samples, 0) % 65536, n), Channel(Sum(samples, 1) % 65536, n), Channel(Sum(samples, 2) % 65536, n)]
  }

  /** With at most 257 samples, each channel of the blend is the mean of
      that channel over the samples, rounded to the nearest integer, and
      lies between the least and greatest sample. */
  lemma BlendIsRoundedMean(samples: seq<Rgb>, c: nat)
    requires 0 < |samples| <= 257 && c < 3
    ensures Blend(samples)[c] == RoundedMean(Sum(samples, c), |samples|)
    ensures Least(samples, c) <= Blend(samples)[c] <= Greatest(samples, c)
  {
    var n, total := |samples|, Sum(samples, c);
    SumFits(samples, c);
    RoundedMeanBetween(samples, c);
    BlendAt(samples, c);
    ByteMod(total, 65536);
    ByteMod(RoundedMean(total, n), 256);
  }

  lemma BlendAt(samples: seq<Rgb>, c: nat)
    requires |samples| > 0 && c < 3
    ensures Blend(samples)[c] == RoundedMean(Sum(samples, c) % 65536, |samples|) % 256
  {
  }

  lemma ByteMod(x: nat, m: nat)
    requires x < m
    ensures x % m == x
  {
  }

  /** `blend_samples`: adds up each channel over the samples in 16 bits
      and takes the rounded mean. */
  method BlendSamples(samples: seq<Rgb>) returns (ret: Rgb)
    requires |samples| > 0
    ensures ret == Blend(samples)
  {
    var r: seq<Byte> := [0, 0, 0];
    var c := 0;
    while c < 3
      invariant 0 <= c <= 3 && |r| == 3
      invariant forall k :: 0 <= k < c ==> r[k] == Blend(samples)[k]
    {
      var accum := Accumulate(samples, c);
      var n := |samples|;
      var value: Byte := (accum / n) % 256;
      if 2 * (accum % n) >= n {
        value := (value + 1) % 256;
      }
      r := r[c := value];
      c := c + 1;
    }
    ret := r;
  }

  // ---------------------------------------------------------------
  // Storing a pixel.

  /** The RGB tile buffer of a worker: extents X, Y, 1 and 3 samples,
      addressed by index. */
  class RgbTile {
    const extents: Extents
    var values: map<Index, Byte>

    ghost predicate Valid()
      reads this
    {
      extents.z == 1 && extents.samples == 3 &&
      forall idx: Index :: idx in values <==> idx.Within(extents)
    }

    constructor(x: nat, y: nat)
      ensures extents == Extents(x, y, 1, 3) && Valid()
      ensures forall idx :: idx in values ==> values[idx] == 0
    {
      extents := Extents(x, y, 1, 3);
      values := map i: nat, j: nat, k: nat | i < x && j < y && k < 3 :: Index(i, j, 0, k) := 0;
      new;
      forall idx: Index ensures idx in values <==> idx.Within(extents) {
        if idx.Within(extents) {
          assert idx == Index(idx.x, idx.y, 0, idx.sample);
        }
      }
    }

    /** `set_pixel`: stores the three samples of `value` at (x, y) and
        changes no other element. */
    method SetPixel(x: nat, y: nat, value: Rgb)
      requires Valid() && x < extents.x && y < extents.y
      modifies this
      ensures Valid()
      ensures forall i :: 0 <= i < 3 ==> values[Index(x, y, 0, i)] == value[i]
      ensures forall idx :: idx in values && (idx.x != x || idx.y != y) ==> values[idx] == old(values)[idx]
      ensures forall idx :: idx in values && !(idx.x == x && idx.y == y && idx.z == 0 && idx.sample < 3) ==>
                              values[idx] == old(values)[idx]
    {
      var i := 0;
      while i < 3
        invariant 0 <= i <= 3 && Valid()
        invariant forall k :: 0 <= k < i ==> values[Index(x, y, 0, k)] == value[k]
        invariant forall idx :: idx in values && !(idx.x == x && idx.y == y && idx.sample < i) ==>
                                 values[idx] == old(values)[idx]
      {
        values := values[Index(x, y, 0, i) := value[i]];
        i := i + 1;
      }
    }
  }

  // ---------------------------------------------------------------
  // Tiles of an image and the work lists.

  /** The tile count along one axis: the quotient, plus one for a
      partial tile. */
  function TileCount(imageSize: nat, tileSize: nat): (n: nat)
    requires tileSize > 0
    ensures n == Tiles.CeilDiv(imageSize, tileSize)
    ensures imageSize <= n * tileSize && (n == 0 || (n - 1) * tileSize < imageSize)
  {
    var n := imageSize / tileSize + (if imageSize % tileSize != 0 then 1 else 0);
    CeilDivIsCount(imageSize, tileSize);
    Tiles.CeilDivBounds(imageSize, tileSize);
    n
  }

  lemma CeilDivIsCount(a: nat, b: nat)
    requires b > 0
    ensures Tiles.CeilDiv(a, b) == a / b + (if a % b != 0 then 1 else 0)
  {
    var q, m := a / b, a % b;
    assert a == q * b + m;
    if m == 0 {
      Tiles.DivModUnique(q, b - 1, b);
      assert a + b - 1 == q * b + (b - 1);
    } else {
      Tiles.DivModUnique(q + 1, m - 1, b);
      assert a + b - 1 == (q + 1) * b + (m - 1);
    }
  }

  /** A unit of work: one tile, with the tile and image sizes. */
  datatype WorkItem = WorkItem(tileX: nat, tileY: nat, tileSizeX: nat, tileSizeY: nat, imageSizeX: nat, imageSizeY: nat)

  /** The number of worker threads as written: the hardware's count,
      but no more than there are tiles. */
  function ThreadsAsWritten(hardware: nat, tiles: nat): (n: nat)
    ensures n <= hardware && n <= tiles
  {
    if hardware < tiles then hardware else tiles
  }

  /** A hardware count of 0, which the standard library allows when the
      count cannot be determined, leaves no work list for a tile to go
      to: the tile index is taken modulo 0. */
  lemma ThreadsAsWrittenNone()
    ensures ThreadsAsWritten(0, 1) == 0
  {
  }

  /** The number of worker threads with at least one whenever there is
      a tile. */
  function Threads(hardware: nat, tiles: nat): (n: nat)
    ensures tiles > 0 ==> 0 < n <= tiles
    ensures tiles == 0 ==> n == 0
    ensures hardware > 0 ==> n == ThreadsAsWritten(hardware, tiles)
  {
    if tiles == 0 then 0 else if hardware == 0 then 1 else ThreadsAsWritten(hardware, tiles)
  }

  /** How many of the first `count` work items go to list `l` of `n`
      when item `k` goes to list `k mod n`. */
  function Share(count: nat, n: nat, l: nat): nat
    requires n > 0
  {
    count / n + (if l < count % n then 1 else 0)
  }

  /** Quotient and remainder of the next number. */
  lemma DivModNext(k: nat, n: nat)
    requires n > 0
    ensures k % n + 1 < n ==> (k + 1) / n == k / n && (k + 1) % n == k % n + 1
    ensures k % n + 1 == n ==> (k + 1) / n == k / n + 1 && (k + 1) % n == 0
  {
    var q, m := k / n, k % n;
    assert k == q * n + m;
    if m + 1 < n {
      Tiles.DivModUnique(q, m + 1, n);
    } else {
      assert (q + 1) * n == q * n + n;
      Tiles.DivModUnique(q + 1, 0, n);
    }
  }

  /** Dealing item `k` adds one to list `k mod n` and nothing to the
      others. */
  lemma ShareStep(k: nat, n: nat, l: nat)
    requires l < n
    ensures Share(k + 1, n, l) == Share(k, n, l) + (if l == k % n then 1 else 0)
    ensures Share(k, n, k % n) == k / n
  {
    DivModNext(k, n);
  }

  /** The work item of item number `k` when the tiles are enumerated
      column by column, `down` tiles per column. */
  function ItemOf(k: nat, down: nat, tileSizeX: nat, tileSizeY: nat, imageSizeX: nat, imageSizeY: nat): WorkItem
    requires down > 0
  {
    WorkItem(k / down, k % down, tileSizeX, tileSizeY, imageSizeX, imageSizeY)
  }

  /** List `l` of the `n` work lists holds, in order, the items `l`,
      `l + n`, `l + 2n`, ... below the tile count, where item `k` is
      the tile in column `k div down`, row `k mod down`. */
  predicate Dealt(work: seq<seq<WorkItem>>, across: nat, down: nat, sx: nat, sy: nat, ix: nat, iy: nat) {
    |work| > 0 ==> down > 0 && DealtUpTo(work, across * down, down, sx, sy, ix, iy)
  }

  /** The first `count` items are dealt out. */
  predicate DealtUpTo(work: seq<seq<WorkItem>>, count: nat, down: nat, sx: nat, sy: nat, ix: nat, iy: nat)
    requires |work| > 0 && down > 0
  {
    forall l :: 0 <= l < |work| ==>
      |work[l]| == Share(count, |work|, l) &&
      forall m :: 0 <= m < |work[l]| ==> work[l][m] == ItemOf(m * |work| + l, down, sx, sy, ix, iy)
  }

  /** The loop of `write_fractal` that deals the tiles out: item `k`,
      counting tile_x-major, goes to list `k mod n`. Each list then
      holds, in order, the items `l`, `l + n`, `l + 2n`, ... below the
      tile count. */
  method DealWork(hardware: nat, imageSizeX: nat, imageSizeY: nat, tileSizeX: nat, tileSizeY: nat)
    returns (work: seq<seq<WorkItem>>)
    requires tileSizeX > 0 && tileSizeY > 0
    ensures var across, down := TileCount(imageSizeX, tileSizeX), TileCount(imageSizeY, tileSizeY);
      && |work| == Threads(hardware, across * down)
      && Dealt(work, across, down, tileSizeX, tileSizeY, imageSizeX, imageSizeY)
  {
    var across := TileCount(imageSizeX, tileSizeX);
    var down := TileCount(imageSizeY, tileSizeY);
    var n := Threads(hardware, across * down);
    work := seq(n, _ => []);
    if n == 0 {
      return;
    }
    var item := 0;
    var tileX := 0;
    while tileX < across
      invariant 0 <= tileX <= across && item == tileX * down && |work| == n
      invariant DealtUpTo(work, item, down, tileSizeX, tileSizeY, imageSizeX, imageSizeY)
    {
      var tileY := 0;
      while tileY < down
        invariant 0 <= tileY <= down && item == tileX * down + tileY && |work| == n
        invariant DealtUpTo(work, item, down, tileSizeX, tileSizeY, imageSizeX, imageSizeY)
      {
        work := Deal(work, item, down, tileSizeX, tileSizeY, imageSizeX, imageSizeY);
        tileY := tileY + 1;
        item := item + 1;
      }
      assert (tileX + 1) * down == tileX * down + down;
      tileX := tileX + 1;
    }
  }

  /** One step of the loop: tile (tile_x, tile_y), item number `item`,
      goes on the end of list `item mod n`. */
  method Deal(work: seq<seq<WorkItem>>, item: nat, down: nat,
              tileSizeX: nat, tileSizeY: nat, imageSizeX: nat, imageSizeY: nat)
    returns (next: seq<seq<WorkItem>>)
    requires |work| > 0 && down > 0
    requires DealtUpTo(work, item, down, tileSizeX, tileSizeY, imageSizeX, imageSizeY)
    ensures |next| == |work|
    ensures DealtUpTo(next, item + 1, down, tileSizeX, tileSizeY, imageSizeX, imageSizeY)
  {
    var n := |work|;
    var l := item % n;
    var m := item / n;
    ShareStep(item, n, l);
    assert item == m * n + l;
    next := work[l := work[l] + [ItemOf(item, down, tileSizeX, tileSizeY, imageSizeX, imageSizeY)]];
    forall l' | 0 <= l' < n ensures |next[l']| == Share(item + 1, n, l') {
      ShareStep(item, n, l');
    }
  }

  /** The shares of `n` lists differ by at most one, the earlier lists
      taking the extra items, and together they hold every item. */
  lemma ShareBalanced(count: nat, n: nat, l: nat, l2: nat)
    requires n > 0 && l < l2 < n
    ensures Share(count, n, l2) <= Share(count, n, l) <= Share(count, n, l2) + 1
    ensures Share(count, n, l) == count / n || Share(count, n, l) == count / n + 1
  {
  }

  /** Every item below the count is in list `k mod n`, at position
      `k div n`. */
  lemma ShareHolds(count: nat, n: nat, k: nat)
    requires n > 0 && k < count
    ensures k / n < Share(count, n, k % n)
  {
    var q: nat, r: nat := count / n, count % n;
    var kq: nat, kr: nat := k / n, k % n;
    assert count == q * n + r;
    assert k == kq * n + kr;
    var next: nat := q + 1;
    MulMono(next, kq, n);
    assert next * n == q * n + n;
  }

  /** Every place of every list holds an item below the count, and the
      place of that item is the one it is in. */
  lemma SharePlace(count: nat, n: nat, l: nat, m: nat)
    requires l < n && m < Share(count, n, l)
    ensures m * n + l < count
    ensures (m * n + l) % n == l && (m * n + l) / n == m
  {
    var q, r := count / n, count % n;
    assert count == q * n + r;
    MulMono(m + 1, q, n);
    Tiles.DivModUnique(m, l, n);
  }

  /** Distinct item numbers are distinct tiles. */
  lemma ItemOfInjective(k: nat, k2: nat, down: nat, sx: nat, sy: nat, ix: nat, iy: nat)
    requires down > 0 && k != k2
    ensures ItemOf(k, down, sx, sy, ix, iy) != ItemOf(k2, down, sx, sy, ix, iy)
  {
    assert k == (k / down) * down + k % down;
    assert k2 == (k2 / down) * down + k2 % down;
  }

  /** Every tile of the image is item number `tile_x * down + tile_y`. */
  lemma ItemOfTile(tileX: nat, tileY: nat, down: nat, sx: nat, sy: nat, ix: nat, iy: nat)
    requires tileY < down
    ensures ItemOf(tileX * down + tileY, down, sx, sy, ix, iy) == WorkItem(tileX, tileY, sx, sy, ix, iy)
  {
    Tiles.DivModUnique(tileX, tileY, down);
  }

  /** The entry of the work lists that item `k` goes to: position
      `k div n` of list `k mod n`, if it is there. */
  function Slot(work: seq<seq<WorkItem>>, k: nat): Option<WorkItem> {
    if |work| == 0 then None
    else
      var l, m := k % |work|, k / |work|;
      if m < |work[l]| then Some(work[l][m]) else None
  }

  /** Item `k` below the count is in its slot. */
  lemma DealtAt(work: seq<seq<WorkItem>>, count: nat, down: nat, sx: nat, sy: nat, ix: nat, iy: nat, k: nat)
    requires |work| > 0 && down > 0 && DealtUpTo(work, count, down, sx, sy, ix, iy) && k < count
    ensures Slot(work, k) == Some(ItemOf(k, down, sx, sy, ix, iy))
  {
    var n := |work|;
    ShareHolds(count, n, k);
    var l, m := k % n, k / n;
    var item: nat := m * n + l;
    assert item == k;
    assert |work[l]| == Share(count, n, l);
    assert work[l][m] == ItemOf(item, down, sx, sy, ix, iy);
  }

  /** Every tile of the image is in a work list: tile (tx, ty), item
      `tx * down + ty`, is in its slot. */
  lemma DealtEveryTile(work: seq<seq<WorkItem>>, across: nat, down: nat, sx: nat, sy: nat, ix: nat, iy: nat,
                       tx: nat, ty: nat)
    requires Dealt(work, across, down, sx, sy, ix, iy) && |work| > 0 && tx < across && ty < down
    ensures Slot(work, tx * down + ty) == Some(WorkItem(tx, ty, sx, sy, ix, iy))
  {
    var k := tx * down + ty;
    Tiles.IndexInPlane(tx, ty, down, across);
    assert down * across == across * down;
    DealtAt(work, across * down, down, sx, sy, ix, iy, k);
    ItemOfTile(tx, ty, down, sx, sy, ix, iy);
  }

  /** Every entry of the work lists is a tile of the image, and no
      tile is in two places. */
  lemma DealtOnlyTiles(work: seq<seq<WorkItem>>, across: nat, down: nat, sx: nat, sy: nat, ix: nat, iy: nat,
                       l: nat, m: nat, l2: nat, m2: nat)
    requires Dealt(work, across, down, sx, sy, ix, iy)
    requires l < |work| && m < |work[l]| && l2 < |work| && m2 < |work[l2]|
    ensures work[l][m].tileX < across && work[l][m].tileY < down
    ensures (l, m) != (l2, m2) ==> work[l][m] != work[l2][m2]
  {
    var n := |work|;
    var k: nat := m * n + l;
    var k2: nat := m2 * n + l2;
    SharePlace(across * down, n, l, m);
    SharePlace(across * down, n, l2, m2);
    assert work[l][m] == ItemOf(k, down, sx, sy, ix, iy);
    assert work[l2][m2] == ItemOf(k2, down, sx, sy, ix, iy);
    ItemInImage(k, across, down);
    if (l, m) != (l2, m2) {
      assert k != k2;
      ItemOfInjective(k, k2, down, sx, sy, ix, iy);
    }
  }

  /** An item number below the tile count is a tile of the image. */
  lemma ItemInImage(k: nat, across: nat, down: nat)
    requires down > 0 && k < across * down
    ensures k / down < across && k % down < down
  {
    var tx: nat, ty: nat := k / down, k % down;
    assert k == tx * down + ty;
    MulMono(across, tx, down);
    assert across * down == down * across;
  }

  /** The work lists differ in length by at most one, the earlier lists
      taking the extra items. */
  lemma DealtBalanced(work: seq<seq<WorkItem>>, across: nat, down: nat, sx: nat, sy: nat, ix: nat, iy: nat,
                      l: nat, l2: nat)
    requires Dealt(work, across, down, sx, sy, ix, iy) && l < l2 < |work|
    ensures |work[l2]| <= |work[l]| <= |work[l2]| + 1
  {
    ShareBalanced(across * down, |work|, l, l2);
  }
}
