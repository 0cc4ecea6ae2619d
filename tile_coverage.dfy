/** Coverage tracking for TIFF tiles and strips
    (lib/ome/files/TileCoverage.cpp).

    A TileCoverage stores non-overlapping rectangles (the parts of a
    tile written so far). The library keeps them in a Boost R-tree of
    boxes; here the tree is a sequence of boxes, and a tree query
    returns the matching boxes in stored order.

    PlaneRegion's operators live in PlaneRegion.h, which is not part of
    this model. The model defines them as follows:
    - `valid()`: both width and height are non-zero;
    - `a & b`: the intersection of the two half-open rectangles, or the
      all-zero region when they share no pixel;
    - `a | b`: the merged rectangle when both are valid and they share
      one full edge, otherwise the all-zero region;
    - `area()`: width times height. */
module TileCoverage {

  /** A rectangle of pixels: columns x .. x+w-1, rows y .. y+h-1. */
  datatype PlaneRegion = PlaneRegion(x: nat, y: nat, w: nat, h: nat) {
    predicate Valid() {
      w > 0 && h > 0
    }

    function Area(): nat {
      w * h
    }

    /** The pixel (px, py) lies inside the region. */
    predicate Has(px: nat, py: nat) {
      x <= px < x + w && y <= py < y + h
    }
  }

  const EmptyRegion := PlaneRegion(0, 0, 0, 0)

  /** `outer` includes every pixel of `inner`. */
  predicate Contains(outer: PlaneRegion, inner: PlaneRegion) {
    outer.x <= inner.x && inner.x + inner.w <= outer.x + outer.w
    && outer.y <= inner.y && inner.y + inner.h <= outer.y + outer.h
  }

  lemma AreaZero(r: PlaneRegion)
    ensures r.Area() == 0 <==> !r.Valid()
  {
    if r.w > 0 && r.h > 0 {
      MulPositive(r.w, r.h);
    }
  }

  lemma MulPositive(a: nat, b: nat)
    requires a > 0 && b > 0
    ensures a * b > 0
  {
  }

  /** A valid region has a pixel (its top-left corner); a region with a
      pixel is valid. */
  lemma ValidHasCorner(r: PlaneRegion)
    ensures r.Valid() <==> r.Has(r.x, r.y)
  {
  }

  lemma HasImpliesValid(r: PlaneRegion, px: nat, py: nat)
    requires r.Has(px, py)
    ensures r.Valid()
  {
  }

  function Max(a: nat, b: nat): nat { if a < b then b else a }
  function Min(a: nat, b: nat): nat { if a < b then a else b }

  /** The `&` operator: the pixels in both regions. */
  function Intersect(a: PlaneRegion, b: PlaneRegion): (r: PlaneRegion)
    ensures forall px: nat, py: nat :: r.Has(px, py) <==> a.Has(px, py) && b.Has(px, py)
    ensures r.Valid() ==> Contains(a, r) && Contains(b, r)
    ensures !r.Valid() ==> r == EmptyRegion
  {
    var left := Max(a.x, b.x);
    var right := Min(a.x + a.w, b.x + b.w);
    var top := Max(a.y, b.y);
    var bottom := Min(a.y + a.h, b.y + b.h);
    if left < right && top < bottom then
      PlaneRegion(left, top, right - left, bottom - top)
    else
      EmptyRegion
  }

  /** Two regions share at least one pixel. */
  predicate Overlaps(a: PlaneRegion, b: PlaneRegion) {
    Intersect(a, b).Valid()
  }

  lemma OverlapsAt(a: PlaneRegion, b: PlaneRegion, px: nat, py: nat)
    requires a.Has(px, py) && b.Has(px, py)
    ensures Overlaps(a, b)
  {
    HasImpliesValid(Intersect(a, b), px, py);
  }

  lemma OverlapsSymmetric(a: PlaneRegion, b: PlaneRegion)
    ensures Overlaps(a, b) <==> Overlaps(b, a)
  {
    var i := Intersect(a, b);
    var j := Intersect(b, a);
    if i.Valid() {
      assert i.Has(i.x, i.y);
      OverlapsAt(b, a, i.x, i.y);
    }
    if j.Valid() {
      assert j.Has(j.x, j.y);
      OverlapsAt(a, b, j.x, j.y);
    }
  }

  /** `a` and `b` share one full edge: same columns and stacked, or
      same rows and side by side. */
  predicate EdgeNeighbours(a: PlaneRegion, b: PlaneRegion) {
    (a.x == b.x && a.w == b.w && (a.y + a.h == b.y || b.y + b.h == a.y))
    || (a.y == b.y && a.h == b.h && (a.x + a.w == b.x || b.x + b.w == a.x))
  }

  /** The smallest rectangle holding both regions. */
  function BoundingBox(a: PlaneRegion, b: PlaneRegion): PlaneRegion {
    var left := Min(a.x, b.x);
    var top := Min(a.y, b.y);
    PlaneRegion(left, top, Max(a.x + a.w, b.x + b.w) - left, Max(a.y + a.h, b.y + b.h) - top)
  }

  /** The `|` operator: the rectangle made of two valid regions that
      share a full edge. */
  function Union(a: PlaneRegion, b: PlaneRegion): (r: PlaneRegion)
    ensures r.Valid() ==> a.Valid() && b.Valid()
    ensures r.Valid() ==> forall px: nat, py: nat :: r.Has(px, py) <==> a.Has(px, py) || b.Has(px, py)
    ensures r.Valid() ==> !Overlaps(a, b)
    ensures r.Valid() ==> Contains(r, a) && Contains(r, b) && !Contains(a, b)
    ensures r.Valid() ==> r.Area() == a.Area() + b.Area()
    ensures !r.Valid() ==> r == EmptyRegion
  {
    var r :=
      if !a.Valid() || !b.Valid() then EmptyRegion
      else if a.x == b.x && a.w == b.w && a.y + a.h == b.y then PlaneRegion(a.x, a.y, a.w, a.h + b.h)
      else if a.x == b.x && a.w == b.w && b.y + b.h == a.y then PlaneRegion(a.x, b.y, a.w, a.h + b.h)
      else if a.y == b.y && a.h == b.h && a.x + a.w == b.x then PlaneRegion(a.x, a.y, a.w + b.w, a.h)
      else if a.y == b.y && a.h == b.h && b.x + b.w == a.x then PlaneRegion(b.x, a.y, a.w + b.w, a.h)
      else EmptyRegion;
    assert r.Valid() ==> r.Area() == a.Area() + b.Area() by {
      if r.Valid() {
        if r.w == a.w {
          assert r.Area() == a.w * (a.h + b.h) == a.w * a.h + a.w * b.h;
        } else {
          assert r.Area() == (a.w + b.w) * a.h == a.w * a.h + b.w * a.h;
        }
      }
    }
    r
  }

  /** Two regions merge exactly when both are valid and they share a
      full edge, and then they merge into their bounding rectangle. */
  lemma UnionMergesNeighbours(a: PlaneRegion, b: PlaneRegion)
    ensures Union(a, b).Valid() <==> a.Valid() && b.Valid() && EdgeNeighbours(a, b)
    ensures Union(a, b).Valid() ==> Union(a, b) == BoundingBox(a, b)
  {
  }

  /** A region that overlaps a merged rectangle overlaps one of its parts. */
  lemma OverlapsUnion(a: PlaneRegion, b: PlaneRegion, c: PlaneRegion)
    requires Union(a, b).Valid()
    requires Overlaps(Union(a, b), c)
    ensures Overlaps(a, c) || Overlaps(b, c)
  {
    var i := Intersect(Union(a, b), c);
    assert i.Has(i.x, i.y);
    if a.Has(i.x, i.y) {
      OverlapsAt(a, c, i.x, i.y);
    } else {
      OverlapsAt(b, c, i.x, i.y);
    }
  }

  lemma ContainsTransitive(a: PlaneRegion, b: PlaneRegion, c: PlaneRegion)
    requires Contains(a, b) && Contains(b, c)
    ensures Contains(a, c)
  {
  }

  /** Intersecting a region with one that contains it gives the region back. */
  lemma IntersectContained(r: PlaneRegion, m: PlaneRegion)
    requires Contains(m, r) && r.Valid()
    ensures Intersect(r, m) == r
  {
  }

  // ---------------------------------------------------------------
  // Boxes, as stored in the tree.

  /** A Boost box: minimum and maximum corners. */
  datatype Box = Box(minX: nat, minY: nat, maxX: nat, maxY: nat) {
    /** The minimum corner is not beyond the maximum corner. */
    predicate Proper() {
      minX <= maxX && minY <= maxY
    }
  }

  /** `box_from_region`: corners (x, y) and (x+w, y+h). */
  function BoxFromRegion(r: PlaneRegion): (b: Box)
    ensures b.Proper()
    ensures RegionFromBox(b) == r
  {
    Box(r.x, r.y, r.x + r.w, r.y + r.h)
  }

  /** `region_from_box`: origin at the minimum corner, extent the corner
      difference. Only proper boxes are ever stored, so the unsigned
      subtraction of the source never wraps. */
  function RegionFromBox(b: Box): (r: PlaneRegion)
    requires b.Proper()
    ensures r.x == b.minX && r.y == b.minY
    ensures r.x + r.w == b.maxX && r.y + r.h == b.maxY
  {
    PlaneRegion(b.minX, b.minY, b.maxX - b.minX, b.maxY - b.minY)
  }

  lemma BoxRoundTrip(b: Box)
    requires b.Proper()
    ensures BoxFromRegion(RegionFromBox(b)) == b
  {
  }

  /** Boost's `intersects` on boxes: closed boxes meet, so boxes that
      only touch along an edge or at a corner also match. */
  predicate Touches(a: Box, b: Box) {
    a.minX <= b.maxX && b.minX <= a.maxX && a.minY <= b.maxY && b.minY <= a.maxY
  }

  /** Regions that overlap have boxes that touch. */
  lemma OverlapTouches(r: PlaneRegion, b: Box)
    requires b.Proper()
    requires Overlaps(r, RegionFromBox(b))
    ensures Touches(b, BoxFromRegion(r))
  {
    var i := Intersect(r, RegionFromBox(b));
    assert i.Has(i.x, i.y);
  }

  predicate AllProper(s: seq<Box>) {
    forall i :: 0 <= i < |s| ==> s[i].Proper()
  }

  /** No two stored boxes (at different positions) share a pixel. */
  predicate NoOverlap(s: seq<Box>) {
    AllProper(s)
    && forall i, j :: 0 <= i < |s| && 0 <= j < |s| && i != j ==>
         !Overlaps(RegionFromBox(s[i]), RegionFromBox(s[j]))
  }

  lemma NoOverlapValues(s: seq<Box>, a: Box, b: Box)
    requires NoOverlap(s) && a in s && b in s && a != b
    ensures !Overlaps(RegionFromBox(a), RegionFromBox(b))
  {
    var i :| 0 <= i < |s| && s[i] == a;
    var j :| 0 <= j < |s| && s[j] == b;
  }

  /** Area of the part of `r` that box `b` covers. */
  function Overlap(r: PlaneRegion, b: Box): nat
    requires b.Proper()
  {
    Intersect(r, RegionFromBox(b)).Area()
  }

  /** What `coverage(r)` computes: the sum over the stored boxes of the
      area they share with `r`. */
  function CoveredArea(s: seq<Box>, r: PlaneRegion): nat
    requires AllProper(s)
  {
    if s == [] then 0 else CoveredArea(s[..|s| - 1], r) + Overlap(r, s[|s| - 1])
  }

  /** Total area of the stored boxes. */
  function TotalArea(s: seq<Box>): nat
    requires AllProper(s)
  {
    if s == [] then 0 else TotalArea(s[..|s| - 1]) + RegionFromBox(s[|s| - 1]).Area()
  }

  /** The tree query `intersecting(b)`: the stored boxes touching `b`. */
  function Touching(s: seq<Box>, b: Box): (r: seq<Box>)
    ensures |r| <= |s|
    ensures forall x :: x in r ==> x in s && Touches(x, b)
    ensures AllProper(s) ==> AllProper(r)
  {
    if s == [] then []
    else Touching(s[..|s| - 1], b) + (if Touches(s[|s| - 1], b) then [s[|s| - 1]] else [])
  }

  /** The query is exhaustive: a box is in the result exactly when it is
      stored and touches `b`. */
  lemma {:induction false} TouchingExactly(s: seq<Box>, b: Box, x: Box)
    ensures x in Touching(s, b) <==> x in s && Touches(x, b)
  {
    if s != [] {
      var p := s[..|s| - 1];
      TouchingExactly(p, b, x);
      assert s == p + [s[|s| - 1]];
    }
  }

  /** Boxes that do not touch a region share no area with it, so
      summing over the query result gives the same coverage. */
  lemma {:induction false} CoveredAreaOfTouching(s: seq<Box>, r: PlaneRegion)
    requires AllProper(s)
    ensures AllProper(Touching(s, BoxFromRegion(r)))
    ensures CoveredArea(Touching(s, BoxFromRegion(r)), r) == CoveredArea(s, r)
  {
    if s != [] {
      var p, x := s[..|s| - 1], s[|s| - 1];
      var b := BoxFromRegion(r);
      CoveredAreaOfTouching(p, r);
      var t := Touching(p, b);
      if Touches(x, b) {
        assert Touching(s, b) == t + [x];
        assert (t + [x])[..|t + [x]| - 1] == t;
      } else {
        assert Touching(s, b) == t;
        if Overlaps(r, RegionFromBox(x)) {
          OverlapTouches(r, x);
        }
        AreaZero(Intersect(r, RegionFromBox(x)));
      }
    }
  }

  lemma {:induction false} CoveredAreaZero(s: seq<Box>, r: PlaneRegion, k: nat)
    requires AllProper(s) && CoveredArea(s, r) == 0 && k < |s|
    ensures !Overlaps(r, RegionFromBox(s[k]))
  {
    if k < |s| - 1 {
      CoveredAreaZero(s[..|s| - 1], r, k);
    } else {
      AreaZero(Intersect(r, RegionFromBox(s[k])));
    }
  }

  /** A region that shares no area with the stored boxes overlaps none
      of them. */
  lemma CoveredAreaZeroAll(s: seq<Box>, r: PlaneRegion)
    requires AllProper(s) && CoveredArea(s, r) == 0
    ensures forall k :: 0 <= k < |s| ==> !Overlaps(r, RegionFromBox(s[k]))
  {
    forall k | 0 <= k < |s| ensures !Overlaps(r, RegionFromBox(s[k])) {
      CoveredAreaZero(s, r, k);
    }
  }

  /** Appending one box adds its overlap. */
  lemma CoveredAreaAppend(s: seq<Box>, x: Box, r: PlaneRegion)
    requires AllProper(s) && x.Proper()
    ensures AllProper(s + [x])
    ensures CoveredArea(s + [x], r) == CoveredArea(s, r) + Overlap(r, x)
    ensures TotalArea(s + [x]) == TotalArea(s) + RegionFromBox(x).Area()
  {
    assert (s + [x])[..|s + [x]| - 1] == s;
  }

  /** `s` with the first occurrence of `v` taken out (the tree's
      `remove(v)`). */
  function RemoveFirst(s: seq<Box>, v: Box): (r: seq<Box>)
    ensures v in s ==> |r| == |s| - 1
    ensures v !in s ==> r == s
    ensures forall x :: x in r ==> x in s
  {
    if s == [] then []
    else if s[0] == v then s[1..]
    else [s[0]] + RemoveFirst(s[1..], v)
  }

  lemma {:induction false} RemoveFirstSplit(s: seq<Box>, v: Box) returns (k: nat)
    requires v in s
    ensures k < |s| && s[k] == v && v !in s[..k]
    ensures RemoveFirst(s, v) == s[..k] + s[k + 1..]
  {
    if s[0] == v {
      k := 0;
    } else {
      var k' := RemoveFirstSplit(s[1..], v);
      k := k' + 1;
      assert s[..k] == [s[0]] + s[1..][..k'];
      assert s[k + 1..] == s[1..][k' + 1..];
    }
  }

  lemma {:induction false} TotalAreaSplit(s: seq<Box>, k: nat)
    requires AllProper(s) && k < |s|
    ensures AllProper(s[..k] + s[k + 1..])
    ensures TotalArea(s[..k] + s[k + 1..]) + RegionFromBox(s[k]).Area() == TotalArea(s)
  {
    var t := s[..k] + s[k + 1..];
    if k == |s| - 1 {
      assert t == s[..|s| - 1];
    } else {
      var p := s[..|s| - 1];
      TotalAreaSplit(p, k);
      assert t == (p[..k] + p[k + 1..]) + [s[|s| - 1]];
      CoveredAreaAppend(p[..k] + p[k + 1..], s[|s| - 1], EmptyRegion);
    }
  }

  /** Removing a valid box from a non-overlapping store removes its only
      copy, keeps the rest non-overlapping and takes away its area. */
  lemma RemoveUnique(s: seq<Box>, v: Box)
    requires NoOverlap(s) && v in s && v.Proper() && RegionFromBox(v).Valid()
    ensures NoOverlap(RemoveFirst(s, v))
    ensures forall x :: x in RemoveFirst(s, v) <==> x in s && x != v
    ensures TotalArea(RemoveFirst(s, v)) + RegionFromBox(v).Area() == TotalArea(s)
  {
    var k := RemoveFirstSplit(s, v);
    DeleteKeepsNoOverlap(s, k);
    DeleteMembers(s, k);
    TotalAreaSplit(s, k);
  }

  lemma PrefixStep<T>(s: seq<T>, k: nat)
    requires k < |s|
    ensures s[..k + 1] == s[..k] + [s[k]]
  {
  }

  /** The position a box has in `s` after the one at `k` is deleted. */
  function Skip(k: nat, i: nat): nat {
    if i < k then i else i + 1
  }

  lemma DeleteIndex(s: seq<Box>, k: nat)
    requires k < |s|
    ensures forall i :: 0 <= i < |s| - 1 ==> (s[..k] + s[k + 1..])[i] == s[Skip(k, i)]
  {
  }

  /** Deleting one box keeps a store non-overlapping. */
  lemma DeleteKeepsNoOverlap(s: seq<Box>, k: nat)
    requires NoOverlap(s) && k < |s|
    ensures NoOverlap(s[..k] + s[k + 1..])
  {
    var t := s[..k] + s[k + 1..];
    DeleteIndex(s, k);
    assert AllProper(t);
    forall i, j | 0 <= i < |t| && 0 <= j < |t| && i != j
      ensures !Overlaps(RegionFromBox(t[i]), RegionFromBox(t[j]))
    {
      assert Skip(k, i) != Skip(k, j);
    }
  }

  /** Deleting the only copy of a valid box from a non-overlapping store
      leaves exactly the other boxes. */
  lemma DeleteMembers(s: seq<Box>, k: nat)
    requires NoOverlap(s) && k < |s| && RegionFromBox(s[k]).Valid()
    ensures forall x :: x in s[..k] + s[k + 1..] <==> x in s && x != s[k]
  {
    var t := s[..k] + s[k + 1..];
    var v := s[k];
    DeleteIndex(s, k);
    ValidHasCorner(RegionFromBox(v));
    OverlapsAt(RegionFromBox(v), RegionFromBox(v), v.minX, v.minY);
    forall x | x in t ensures x in s && x != v {
      var i :| 0 <= i < |t| && t[i] == x;
      assert s[Skip(k, i)] == x;
    }
    forall x | x in s && x != v ensures x in t {
      var i :| 0 <= i < |s| && s[i] == x;
      assert t[if i < k then i else i - 1] == x;
    }
  }

  lemma RemoveFirstKeepsNoOverlap(s: seq<Box>, v: Box)
    requires NoOverlap(s)
    ensures NoOverlap(RemoveFirst(s, v))
  {
    if v in s {
      var k := RemoveFirstSplit(s, v);
      DeleteKeepsNoOverlap(s, k);
    }
  }

  /** A point count argument: boxes that do not overlap cover at most
      the area of the region they are intersected with. */
  function Cells(r: PlaneRegion): set<(nat, nat)>
    decreases r.h
  {
    if r.h == 0 then {}
    else Cells(PlaneRegion(r.x, r.y, r.w, r.h - 1)) + Row(r.x, r.y + r.h - 1, r.w)
  }

  function Row(x: nat, y: nat, w: nat): set<(nat, nat)> {
    set px: nat | x <= px < x + w :: (px, y)
  }

  lemma {:induction false} CellsHas(r: PlaneRegion)
    ensures forall c :: c in Cells(r) <==> r.Has(c.0, c.1)
    decreases r.h
  {
    if r.h > 0 {
      CellsHas(PlaneRegion(r.x, r.y, r.w, r.h - 1));
    }
  }

  lemma {:induction false} RowCard(x: nat, y: nat, w: nat)
    ensures |Row(x, y, w)| == w
  {
    if w > 0 {
      RowCard(x, y, w - 1);
      assert Row(x, y, w) == Row(x, y, w - 1) + {(x + w - 1, y)};
    } else {
      assert Row(x, y, w) == {};
    }
  }

  lemma {:induction false} CellsCard(r: PlaneRegion)
    ensures |Cells(r)| == r.Area()
    decreases r.h
  {
    if r.h > 0 {
      var r' := PlaneRegion(r.x, r.y, r.w, r.h - 1);
      CellsCard(r');
      RowCard(r.x, r.y + r.h - 1, r.w);
      LastRowDisjoint(r');
      DisjointCard(Cells(r'), Row(r.x, r.y + r.h - 1, r.w));
      MulStep(r.w, r.h);
    }
  }

  lemma LastRowDisjoint(r: PlaneRegion)
    ensures Cells(r) !! Row(r.x, r.y + r.h, r.w)
  {
    CellsHas(r);
  }

  lemma DisjointCard<T>(a: set<T>, b: set<T>)
    requires a !! b
    ensures |a + b| == |a| + |b|
  {
    assert a * b == {};
  }

  lemma MulStep(w: nat, h: nat)
    requires h > 0
    ensures w * h == w * (h - 1) + w
  {
  }

  lemma CellsOfIntersect(a: PlaneRegion, b: PlaneRegion)
    ensures Cells(Intersect(a, b)) == Cells(a) * Cells(b)
  {
    var i := Intersect(a, b);
    CellsHas(a);
    CellsHas(b);
    CellsHas(i);
    forall c | c in Cells(a) * Cells(b) ensures c in Cells(i) {
      assert a.Has(c.0, c.1) && b.Has(c.0, c.1);
      assert i.Has(c.0, c.1);
    }
    forall c | c in Cells(i) ensures c in Cells(a) * Cells(b) {
      assert i.Has(c.0, c.1);
    }
  }

  /** The pixels of `r` covered by the stored boxes. */
  function CoveredCells(s: seq<Box>, r: PlaneRegion): set<(nat, nat)>
    requires AllProper(s)
  {
    if s == [] then {} else CoveredCells(s[..|s| - 1], r) + Cells(Intersect(r, RegionFromBox(s[|s| - 1])))
  }

  lemma {:induction false} CoveredCellsCount(s: seq<Box>, r: PlaneRegion)
    requires NoOverlap(s)
    ensures CoveredCells(s, r) <= Cells(r)
    ensures |CoveredCells(s, r)| == CoveredArea(s, r)
  {
    if s != [] {
      var p, x := s[..|s| - 1], s[|s| - 1];
      assert forall i :: 0 <= i < |p| ==> p[i] == s[i];
      assert NoOverlap(p);
      CoveredCellsCount(p, r);
      var i := Intersect(r, RegionFromBox(x));
      CellsOfIntersect(r, RegionFromBox(x));
      CellsCard(i);
      assert forall k :: 0 <= k < |p| ==> !Overlaps(RegionFromBox(p[k]), RegionFromBox(x)) by {
        forall k | 0 <= k < |p|
          ensures !Overlaps(RegionFromBox(p[k]), RegionFromBox(x))
        {
          assert p[k] == s[k] && x == s[|s| - 1];
        }
      }
      CoveredCellsAvoid(p, r, x);
      assert Cells(i) <= Cells(RegionFromBox(x));
      DisjointCard(CoveredCells(p, r), Cells(i));
      assert CoveredCells(s, r) == CoveredCells(p, r) + Cells(i);
      assert CoveredArea(s, r) == CoveredArea(p, r) + i.Area();
    }
  }

  /** A box that overlaps none of the stored boxes shares no pixel with
      what they cover. */
  lemma {:induction false} CoveredCellsAvoid(s: seq<Box>, r: PlaneRegion, x: Box)
    requires AllProper(s) && x.Proper()
    requires forall i :: 0 <= i < |s| ==> !Overlaps(RegionFromBox(s[i]), RegionFromBox(x))
    ensures CoveredCells(s, r) !! Cells(RegionFromBox(x))
  {
    if s != [] {
      var p, y := s[..|s| - 1], s[|s| - 1];
      assert forall i :: 0 <= i < |p| ==> p[i] == s[i];
      CoveredCellsAvoid(p, r, x);
      var ry, rx := RegionFromBox(y), RegionFromBox(x);
      CellsOfIntersect(r, ry);
      CellsOfIntersect(ry, rx);
      assert !Overlaps(ry, rx);
      assert Intersect(ry, rx) == EmptyRegion;
      assert Cells(EmptyRegion) == {};
      assert Cells(ry) * Cells(rx) == {};
      var b := Cells(Intersect(r, ry));
      assert b <= Cells(ry);
      forall c | c in b ensures c !in Cells(rx) {
        assert c in Cells(ry);
        assert c !in Cells(ry) * Cells(rx);
      }
      assert CoveredCells(s, r) == CoveredCells(p, r) + b;
    }
  }

  /** Under the no-overlap invariant, `coverage(r)` never exceeds the
      area of `r`. */
  lemma CoverageBound(s: seq<Box>, r: PlaneRegion)
    requires NoOverlap(s)
    ensures CoveredArea(s, r) <= r.Area()
  {
    CoveredCellsCount(s, r);
    CellsCard(r);
    SubsetCard(CoveredCells(s, r), Cells(r));
  }

  lemma SubsetCard<T>(a: set<T>, b: set<T>)
    requires a <= b
    ensures |a| <= |b|
  {
    assert b == a + (b - a);
  }

  lemma SubsetCardEqual<T>(a: set<T>, b: set<T>)
    requires a <= b && |a| == |b|
    ensures a == b
  {
    assert b == a + (b - a);
    DisjointCard(a, b - a);
  }

  lemma SubsetCardStrict<T>(a: set<T>, b: set<T>)
    requires a <= b && |a| < |b|
    ensures b - a != {}
  {
    assert b == a + (b - a);
    DisjointCard(a, b - a);
  }

  /** A pixel of `r` is counted exactly when some stored box holds it. */
  lemma {:induction false} CoveredCellsHas(s: seq<Box>, r: PlaneRegion, c: (nat, nat))
    requires AllProper(s)
    ensures c in CoveredCells(s, r) <==>
      r.Has(c.0, c.1) && exists k :: 0 <= k < |s| && RegionFromBox(s[k]).Has(c.0, c.1)
  {
    if s != [] {
      var p, x := s[..|s| - 1], s[|s| - 1];
      assert forall k :: 0 <= k < |p| ==> p[k] == s[k];
      CoveredCellsHas(p, r, c);
      CellsOfIntersect(r, RegionFromBox(x));
      CellsHas(r);
      CellsHas(RegionFromBox(x));
      if r.Has(c.0, c.1) && RegionFromBox(x).Has(c.0, c.1) {
        assert c in Cells(Intersect(r, RegionFromBox(x)));
      }
    }
  }

  lemma {:induction false} CoveredAreaNone(s: seq<Box>, r: PlaneRegion)
    requires AllProper(s)
    requires forall k :: 0 <= k < |s| ==> !Overlaps(r, RegionFromBox(s[k]))
    ensures CoveredArea(s, r) == 0
  {
    if s != [] {
      assert forall k :: 0 <= k < |s| - 1 ==> s[..|s| - 1][k] == s[k];
      CoveredAreaNone(s[..|s| - 1], r);
    }
  }

  /** The query results that a merge pass has not yet merged. */
  function Pending(query: seq<Box>, remove: seq<Box>): set<nat> {
    set j: nat | j < |query| && query[j] !in remove
  }

  lemma PendingShrinks(query: seq<Box>, r0: seq<Box>, r: seq<Box>)
    requires |r0| < |r| && r[..|r0|] == r0
    requires r[|r0|] in query && r[|r0|] !in r0
    ensures |Pending(query, r)| < |Pending(query, r0)|
  {
    var j :| 0 <= j < |query| && query[j] == r[|r0|];
    assert forall k :: 0 <= k < |r0| ==> r0[k] == r[k];
    assert j in Pending(query, r0) - Pending(query, r);
    SubsetCard(Pending(query, r), Pending(query, r0));
    if |Pending(query, r)| == |Pending(query, r0)| {
      SubsetCardEqual(Pending(query, r), Pending(query, r0));
    }
  }

  /** TileCoverage: the regions of one tile (one sample of it) written
      so far, as non-overlapping boxes. */
  class TileCoverage {
    var boxes: seq<Box>

    /** The stored boxes are proper and no two share a pixel. */
    ghost predicate Valid()
      reads this
    {
      NoOverlap(boxes)
    }

    constructor()
      ensures Valid() && boxes == []
    {
      boxes := [];
    }

    /** `size()`: the number of stored boxes. */
    function Size(): nat
      reads this
    {
      |boxes|
    }

    /** `clear()`. */
    method Clear()
      modifies this
      ensures Valid() && boxes == [] && Size() == 0
    {
      boxes := [];
    }

    /** `coverage(region)`: the area of `region` the stored boxes cover,
        summed over the boxes the tree query returns. */
    method Coverage(region: PlaneRegion) returns (area: nat)
      requires Valid()
      ensures area == CoveredArea(boxes, region)
      ensures area <= region.Area()
    {
      var b := BoxFromRegion(region);
      var results := Touching(boxes, b);
      CoveredAreaOfTouching(boxes, region);
      area := 0;
      var i := 0;
      while i < |results|
        invariant 0 <= i <= |results|
        invariant area == CoveredArea(results[..i], region)
      {
        var test := RegionFromBox(results[i]);
        var intersection := Intersect(region, test);
        if intersection.Valid() {
          area := area + intersection.Area();
        }
        PrefixStep(results, i);
        CoveredAreaAppend(results[..i], results[i], region);
        i := i + 1;
      }
      assert results[..i] == results;
      CoverageBound(boxes, region);
    }

    /** `covered(region)`: every pixel of `region` lies in a stored box. */
    method Covered(region: PlaneRegion) returns (c: bool)
      requires Valid()
      ensures c <==> CoveredArea(boxes, region) == region.Area()
      ensures c <==> forall px: nat, py: nat :: region.Has(px, py) ==>
                       exists k :: 0 <= k < |boxes| && RegionFromBox(boxes[k]).Has(px, py)
    {
      var area := Coverage(region);
      c := region.w * region.h == area;
      CoveredCellsCount(boxes, region);
      CellsCard(region);
      CellsHas(region);
      if c {
        SubsetCardEqual(CoveredCells(boxes, region), Cells(region));
        forall px: nat, py: nat | region.Has(px, py)
          ensures exists k :: 0 <= k < |boxes| && RegionFromBox(boxes[k]).Has(px, py)
        {
          assert (px, py) in Cells(region);
          CoveredCellsHas(boxes, region, (px, py));
        }
      } else {
        SubsetCardStrict(CoveredCells(boxes, region), Cells(region));
        var cell :| cell in Cells(region) - CoveredCells(boxes, region);
        CoveredCellsHas(boxes, region, cell);
        assert region.Has(cell.0, cell.1);
      }
    }

    /** `remove(region)`: takes out one stored box equal to the region's
        box, and says whether there was one. */
    method Remove(region: PlaneRegion) returns (removed: bool)
      requires Valid()
      modifies this
      ensures Valid()
      ensures removed <==> BoxFromRegion(region) in old(boxes)
      ensures boxes == RemoveFirst(old(boxes), BoxFromRegion(region))
    {
      var b := BoxFromRegion(region);
      removed := b in boxes;
      RemoveFirstKeepsNoOverlap(boxes, b);
      boxes := RemoveFirst(boxes, b);
    }

    /** `insert(region, coalesce)`: records a region none of which is
        covered yet. Without coalescing its box is added as it is. With
        coalescing, stored boxes that touch the region and share a full
        edge with the growing merged rectangle are merged into it
        (repeatedly, until a pass merges nothing), taken out, and the
        merged rectangle is stored instead. */
    method Insert(region: PlaneRegion, coalesce: bool) returns (inserted: bool)
      requires Valid()
      modifies this
      ensures Valid()
      ensures inserted <==> old(CoveredArea(boxes, region)) == 0
      ensures !inserted ==> boxes == old(boxes)
      ensures inserted && !coalesce ==> boxes == old(boxes) + [BoxFromRegion(region)]
      ensures inserted ==> CoveredArea(boxes, region) == region.Area()
      ensures inserted ==> TotalArea(boxes) == old(TotalArea(boxes)) + region.Area()
      ensures |boxes| <= |old(boxes)| + 1
      ensures inserted && coalesce ==>
        |boxes| > 0 && Contains(RegionFromBox(boxes[|boxes| - 1]), region)
        && (forall x :: x in boxes[..|boxes| - 1] ==> x in old(boxes))
        && (forall j :: 0 <= j < |old(boxes)| ==>
              old(boxes)[j] in boxes[..|boxes| - 1]
              || Contains(RegionFromBox(boxes[|boxes| - 1]), RegionFromBox(old(boxes)[j])))
    {
      inserted := false;
      var covered := Coverage(region);
      if covered == 0 {
        CoveredAreaZeroAll(boxes, region);
        if !coalesce {
          InsertDisjoint(region);
          inserted := true;
        } else {
          InsertCoalesced(region);
          inserted := true;
        }
      }
    }

    /** The coalescing branch of `insert`. */
    method InsertCoalesced(region: PlaneRegion)
      requires Valid()
      requires forall j :: 0 <= j < |boxes| ==> !Overlaps(region, RegionFromBox(boxes[j]))
      modifies this
      ensures Valid()
      ensures CoveredArea(boxes, region) == region.Area()
      ensures TotalArea(boxes) == old(TotalArea(boxes)) + region.Area()
      ensures |boxes| <= |old(boxes)| + 1
      ensures |boxes| > 0 && Contains(RegionFromBox(boxes[|boxes| - 1]), region)
      ensures forall x :: x in boxes[..|boxes| - 1] ==> x in old(boxes)
      ensures forall j :: 0 <= j < |old(boxes)| ==>
        old(boxes)[j] in boxes[..|boxes| - 1]
        || Contains(RegionFromBox(boxes[|boxes| - 1]), RegionFromBox(old(boxes)[j]))
    {
      ghost var before := boxes;
      var remove, mergedRegion := MergeAdjacent(region);
      RemoveAll(remove, mergedRegion);
      KeptDisjoint(before, boxes, remove, mergedRegion, region);
      ghost var kept := boxes;
      InsertMerged(region, mergedRegion);
      assert boxes[..|boxes| - 1] == kept;
    }

    /** The first branch of `insert`: add a box that overlaps nothing. */
    method InsertDisjoint(region: PlaneRegion)
      requires Valid()
      requires forall j :: 0 <= j < |boxes| ==> !Overlaps(region, RegionFromBox(boxes[j]))
      modifies this
      ensures Valid()
      ensures boxes == old(boxes) + [BoxFromRegion(region)]
      ensures CoveredArea(boxes, region) == region.Area()
      ensures TotalArea(boxes) == old(TotalArea(boxes)) + region.Area()
    {
      var b := BoxFromRegion(region);
      var s := boxes + [b];
      forall i, j | 0 <= i < |s| && 0 <= j < |s| && i != j
        ensures !Overlaps(RegionFromBox(s[i]), RegionFromBox(s[j]))
      {
        if i == |boxes| {
          assert s[j] == boxes[j];
        } else if j == |boxes| {
          assert s[i] == boxes[i];
          OverlapsSymmetric(region, RegionFromBox(boxes[i]));
        } else {
          assert s[i] == boxes[i] && s[j] == boxes[j];
        }
      }
      CoveredAreaNone(boxes, region);
      CoveredAreaAppend(boxes, b, region);
      OverlapWithSelf(region);
      boxes := s;
    }

    /** What the merge passes keep: the merged rectangle contains the
        region and every box merged so far (each a distinct query result),
        has their total area, and overlaps no box not merged. */
    ghost predicate MergeInv(region: PlaneRegion, query: seq<Box>, remove: seq<Box>, merged: PlaneRegion)
      reads this
    {
      Valid()
      && Contains(merged, region)
      && (forall k :: 0 <= k < |remove| ==>
            remove[k] in query && remove[k].Proper()
            && RegionFromBox(remove[k]).Valid() && Contains(merged, RegionFromBox(remove[k])))
      && (forall k, l :: 0 <= k < l < |remove| ==> remove[k] != remove[l])
      && AllProper(remove)
      && merged.Area() == region.Area() + TotalArea(remove)
      && (forall j :: 0 <= j < |boxes| && boxes[j] !in remove ==>
            !Overlaps(merged, RegionFromBox(boxes[j])))
    }

    /** The merge passes of `insert`: returns the boxes merged (to be
        taken out) and the merged rectangle. The tree does not change. */
    method MergeAdjacent(region: PlaneRegion) returns (remove: seq<Box>, mergedRegion: PlaneRegion)
      requires Valid()
      requires forall j :: 0 <= j < |boxes| ==> !Overlaps(region, RegionFromBox(boxes[j]))
      ensures MergeInv(region, Touching(boxes, BoxFromRegion(region)), remove, mergedRegion)
    {
      ghost var query := Touching(boxes, BoxFromRegion(region));
      remove := [];
      mergedRegion := region;
      var merged := true;
      while merged
        invariant MergeInv(region, query, remove, mergedRegion)
        decreases |Pending(query, remove)|, merged
      {
        ghost var remove0 := remove;
        remove, mergedRegion, merged := MergePass(region, query, remove, mergedRegion);
        if merged {
          assert remove[|remove0|] !in remove0 by {
            assert forall k :: 0 <= k < |remove0| ==> remove0[k] == remove[k];
          }
          PendingShrinks(query, remove0, remove);
        } else {
          assert remove == remove[..|remove0|];
        }
      }
    }

    /** One pass of the `while (merged)` loop over the query results. */
    method MergePass(region: PlaneRegion, ghost query: seq<Box>, remove0: seq<Box>, merged0: PlaneRegion)
      returns (remove: seq<Box>, mergedRegion: PlaneRegion, merged: bool)
      requires Valid() && query == Touching(boxes, BoxFromRegion(region))
      requires MergeInv(region, query, remove0, merged0)
      ensures MergeInv(region, query, remove, mergedRegion)
      ensures |remove0| <= |remove| && remove[..|remove0|] == remove0
      ensures merged <==> |remove0| < |remove|
    {
      remove, mergedRegion := remove0, merged0;
      merged := false;
      var results := Touching(boxes, BoxFromRegion(region));
      var i := 0;
      while i < |results|
        invariant 0 <= i <= |results|
        invariant MergeInv(region, query, remove, mergedRegion)
        invariant |remove0| <= |remove| && remove[..|remove0|] == remove0
        invariant merged <==> |remove0| < |remove|
      {
        var test := RegionFromBox(results[i]);
        var m := Union(mergedRegion, test);
        if m.Valid() {
          MergeStep(region, query, remove, mergedRegion, results[i]);
          assert (remove + [results[i]])[..|remove0|] == remove0;
          mergedRegion := m;
          remove := remove + [results[i]];
          merged := true;
        }
        i := i + 1;
      }
    }

    /** Merging one more query result keeps the merge invariant. */
    lemma MergeStep(region: PlaneRegion, query: seq<Box>, remove: seq<Box>, merged: PlaneRegion, t: Box)
      requires Valid() && query == Touching(boxes, BoxFromRegion(region))
      requires MergeInv(region, query, remove, merged)
      requires t in query && Union(merged, RegionFromBox(t)).Valid()
      ensures MergeInv(region, query, remove + [t], Union(merged, RegionFromBox(t)))
    {
      var test := RegionFromBox(t);
      var m := Union(merged, test);
      var r := remove + [t];
      forall k | 0 <= k < |remove| ensures remove[k] != t {
        assert Contains(merged, RegionFromBox(remove[k]));
      }
      forall j | 0 <= j < |boxes| && boxes[j] !in r
        ensures !Overlaps(m, RegionFromBox(boxes[j]))
      {
        NoOverlapValues(boxes, t, boxes[j]);
        if Overlaps(m, RegionFromBox(boxes[j])) {
          OverlapsUnion(merged, test, RegionFromBox(boxes[j]));
        }
      }
      forall k | 0 <= k < |r|
        ensures r[k] in query && r[k].Proper()
          && RegionFromBox(r[k]).Valid() && Contains(m, RegionFromBox(r[k]))
      {
        if k < |remove| {
          assert r[k] == remove[k];
          ContainsTransitive(m, merged, RegionFromBox(remove[k]));
        }
      }
      CoveredAreaAppend(remove, t, EmptyRegion);
      ContainsTransitive(m, merged, region);
    }

    /** The removals of `insert`: each merged box is taken out of the tree. */
    method RemoveAll(remove: seq<Box>, mergedRegion: PlaneRegion)
      requires Valid()
      requires forall k :: 0 <= k < |remove| ==>
        remove[k] in boxes && remove[k].Proper() && RegionFromBox(remove[k]).Valid()
      requires forall k, l :: 0 <= k < l < |remove| ==> remove[k] != remove[l]
      requires AllProper(remove)
      modifies this
      ensures Valid()
      ensures forall x :: x in boxes <==> x in old(boxes) && x !in remove
      ensures TotalArea(boxes) + TotalArea(remove) == old(TotalArea(boxes))
      ensures |boxes| + |remove| == |old(boxes)|
    {
      var k := 0;
      while k < |remove|
        invariant 0 <= k <= |remove|
        invariant NoOverlap(boxes)
        invariant forall x :: x in boxes <==> x in old(boxes) && x !in remove[..k]
        invariant TotalArea(boxes) + TotalArea(remove[..k]) == old(TotalArea(boxes))
        invariant |boxes| + k == |old(boxes)|
      {
        RemoveAllStep(old(boxes), boxes, remove, k);
        boxes := RemoveFirst(boxes, remove[k]);
        k := k + 1;
      }
      assert remove[..k] == remove;
    }

    /** The invariant step of the removal loop of `insert`. */
    static lemma RemoveAllStep(orig: seq<Box>, cur: seq<Box>, remove: seq<Box>, k: nat)
      requires NoOverlap(orig) && NoOverlap(cur) && k < |remove|
      requires forall j :: 0 <= j < |remove| ==>
        remove[j] in orig && remove[j].Proper() && RegionFromBox(remove[j]).Valid()
      requires forall j, l :: 0 <= j < l < |remove| ==> remove[j] != remove[l]
      requires AllProper(remove)
      requires forall x :: x in cur <==> x in orig && x !in remove[..k]
      requires TotalArea(cur) + TotalArea(remove[..k]) == TotalArea(orig)
      requires |cur| + k == |orig|
      ensures NoOverlap(RemoveFirst(cur, remove[k]))
      ensures forall x :: x in RemoveFirst(cur, remove[k]) <==> x in orig && x !in remove[..k + 1]
      ensures TotalArea(RemoveFirst(cur, remove[k])) + TotalArea(remove[..k + 1]) == TotalArea(orig)
      ensures |RemoveFirst(cur, remove[k])| + k + 1 == |orig|
    {
      assert remove[k] !in remove[..k] by {
        assert forall l :: 0 <= l < k ==> remove[..k][l] == remove[l];
      }
      RemoveUnique(cur, remove[k]);
      PrefixStep(remove, k);
      CoveredAreaAppend(remove[..k], remove[k], EmptyRegion);
    }

    /** The last step of `insert`: store the merged rectangle. */
    method InsertMerged(region: PlaneRegion, mergedRegion: PlaneRegion)
      requires Valid()
      requires Contains(mergedRegion, region)
      requires forall j :: 0 <= j < |boxes| ==>
        !Overlaps(mergedRegion, RegionFromBox(boxes[j])) && !Overlaps(region, RegionFromBox(boxes[j]))
      modifies this
      ensures Valid()
      ensures boxes == old(boxes) + [BoxFromRegion(mergedRegion)]
      ensures CoveredArea(boxes, region) == region.Area()
      ensures TotalArea(boxes) == old(TotalArea(boxes)) + mergedRegion.Area()
    {
      var mb := BoxFromRegion(mergedRegion);
      var s := boxes + [mb];
      forall i, j | 0 <= i < |s| && 0 <= j < |s| && i != j
        ensures !Overlaps(RegionFromBox(s[i]), RegionFromBox(s[j]))
      {
        if i == |boxes| {
          assert s[j] == boxes[j];
        } else if j == |boxes| {
          assert s[i] == boxes[i];
          OverlapsSymmetric(mergedRegion, RegionFromBox(boxes[i]));
        } else {
          assert s[i] == boxes[i] && s[j] == boxes[j];
        }
      }
      CoveredAreaNone(boxes, region);
      CoveredAreaAppend(boxes, mb, region);
      if region.Valid() {
        IntersectContained(region, mergedRegion);
      } else {
        AreaZero(region);
        AreaZero(Intersect(region, mergedRegion));
      }
      boxes := s;
    }
  }

  /** The boxes left after the merged ones are taken out overlap neither
      the merged rectangle nor the inserted region. */
  lemma KeptDisjoint(before: seq<Box>, kept: seq<Box>, remove: seq<Box>, merged: PlaneRegion,
                     region: PlaneRegion)
    requires AllProper(before) && AllProper(kept)
    requires forall x :: x in kept ==> x in before && x !in remove
    requires forall j :: 0 <= j < |before| && before[j] !in remove ==>
      !Overlaps(merged, RegionFromBox(before[j]))
    requires forall j :: 0 <= j < |before| ==> !Overlaps(region, RegionFromBox(before[j]))
    ensures forall j :: 0 <= j < |kept| ==>
      !Overlaps(merged, RegionFromBox(kept[j])) && !Overlaps(region, RegionFromBox(kept[j]))
  {
    forall j | 0 <= j < |kept|
      ensures !Overlaps(merged, RegionFromBox(kept[j])) && !Overlaps(region, RegionFromBox(kept[j]))
    {
      assert kept[j] in kept;
      var i :| 0 <= i < |before| && before[i] == kept[j];
    }
  }

  /** A region shares all of its area with itself. */
  lemma OverlapWithSelf(r: PlaneRegion)
    ensures Intersect(r, r).Area() == r.Area()
  {
    if r.Valid() {
      IntersectContained(r, r);
    } else {
      AreaZero(r);
      AreaZero(Intersect(r, r));
    }
  }
}
