/** Storage order of the four-dimensional pixel buffers
    (lib/ome/files/PixelBuffer.cpp), and where an element lives in a
    buffer's memory under that order. */
module PixelBuffer {

  /** The buffer dimensions, numbered as DIM_SPATIAL_X .. DIM_SAMPLE. */
  datatype Dim = SpatialX | SpatialY | SpatialZ | Sample

  /** The OME DimensionOrder enumeration (accepted and ignored by
      one overload of `make_storage_order`). */
  datatype DimensionOrder = XYZCT | XYZTC | XYCTZ | XYCZT | XYTCZ | XYTZC

  /** A storage order: dimensions from fastest- to slowest-varying in
      memory, and whether each is stored ascending. */
  datatype StorageOrder = StorageOrder(ordering: seq<Dim>, ascending: seq<bool>)

  /** A well-formed order names each of the four dimensions exactly
      once and stores every one of them ascending. */
  predicate WellFormed(o: StorageOrder) {
    && |o.ordering| == 4 && |o.ascending| == 4
    && SpatialX in o.ordering && SpatialY in o.ordering
    && SpatialZ in o.ordering && Sample in o.ordering
    && (forall i, j :: 0 <= i < j < 4 ==> o.ordering[i] != o.ordering[j])
    && (forall i :: 0 <= i < 4 ==> o.ascending[i])
  }

  /** The spatial dimensions of an ordering, in the order they appear. */
  function Spatial(ordering: seq<Dim>): (r: seq<Dim>)
    ensures Sample !in r
    ensures |r| <= |ordering|
  {
    if ordering == [] then []
    else if ordering[0] == Sample then Spatial(ordering[1..])
    else [ordering[0]] + Spatial(ordering[1..])
  }

  /** `make_storage_order(interleaved)`: samples vary fastest when
      interleaved (chunky) and slowest otherwise (planar); the spatial
      dimensions always keep the order X, Y, Z. */
  function MakeStorageOrder(interleaved: bool): (r: StorageOrder)
    ensures WellFormed(r)
    ensures r.ordering[0] == Sample <==> interleaved
    ensures r.ordering[3] == Sample <==> !interleaved
  {
    if interleaved then StorageOrder([Sample, SpatialX, SpatialY, SpatialZ], [true, true, true, true])
    else StorageOrder([SpatialX, SpatialY, SpatialZ, Sample], [true, true, true, true])
  }

  /** In both orders the spatial dimensions keep the order X, Y, Z. */
  lemma SpatialOrder(interleaved: bool)
    ensures Spatial(MakeStorageOrder(interleaved).ordering) == [SpatialX, SpatialY, SpatialZ]
  {
    var o := MakeStorageOrder(interleaved).ordering;
    if interleaved {
      assert Spatial(o[1..][1..]) == [SpatialY, SpatialZ] by {
        assert Spatial(o[1..][1..][1..]) == [SpatialZ] by {
          assert o[1..][1..][1..][1..] == [];
        }
      }
    } else {
      assert o[1..][1..][1..][1..] == [];
      assert Spatial(o[1..][1..][1..]) == [];
      assert Spatial(o[1..][1..]) == [SpatialZ];
    }
  }

  /** The overload taking a DimensionOrder ignores it. */
  function MakeStorageOrderFor(order: DimensionOrder, interleaved: bool): (r: StorageOrder)
    ensures r == MakeStorageOrder(interleaved)
  {
    MakeStorageOrder(interleaved)
  }

  /** `default_storage_order`: interleaved. */
  function DefaultStorageOrder(): (r: StorageOrder)
    ensures r == MakeStorageOrder(true)
    ensures r != MakeStorageOrder(false)
  {
    MakeStorageOrder(true)
  }

  /** The two orders are different, and each is determined by whether
      samples come first. */
  lemma OrdersDistinct(a: bool, b: bool)
    ensures MakeStorageOrder(a) == MakeStorageOrder(b) <==> a == b
  {
    if MakeStorageOrder(a) == MakeStorageOrder(b) {
      assert MakeStorageOrder(a).ordering[0] == MakeStorageOrder(b).ordering[0];
    }
  }

  /** Sizes of the four dimensions of a buffer. */
  datatype Extents = Extents(x: nat, y: nat, z: nat, samples: nat) {
    function At(d: Dim): nat {
      match d
      case SpatialX => x
      case SpatialY => y
      case SpatialZ => z
      case Sample => samples
    }
  }

  /** An index into a buffer: one coordinate per dimension. */
  datatype Index = Index(x: nat, y: nat, z: nat, sample: nat) {
    function At(d: Dim): nat {
      match d
      case SpatialX => x
      case SpatialY => y
      case SpatialZ => z
      case Sample => sample
    }

    predicate Within(e: Extents) {
      x < e.x && y < e.y && z < e.z && sample < e.samples
    }
  }

  /** Product of the extents of the listed dimensions. */
  function Volume(ordering: seq<Dim>, e: Extents): nat {
    if ordering == [] then 1 else e.At(ordering[0]) * Volume(ordering[1..], e)
  }

  /** Memory offset of an element for an all-ascending order: the
      first dimension of the ordering has stride 1, and each later one
      the product of the extents before it. */
  function Offset(ordering: seq<Dim>, e: Extents, idx: Index): nat {
    if ordering == [] then 0
    else idx.At(ordering[0]) + e.At(ordering[0]) * Offset(ordering[1..], e, idx)
  }

  /** An index within the extents lands inside the buffer's memory. */
  lemma {:induction false} OffsetBound(ordering: seq<Dim>, e: Extents, idx: Index)
    requires forall d: Dim :: idx.At(d) < e.At(d)
    ensures Offset(ordering, e, idx) < Volume(ordering, e)
  {
    if ordering != [] {
      var d := ordering[0];
      OffsetBound(ordering[1..], e, idx);
      var o := Offset(ordering[1..], e, idx);
      var v := Volume(ordering[1..], e);
      assert o + 1 <= v;
      calc {
        Offset(ordering, e, idx);
      ==
        idx.At(d) + e.At(d) * o;
      <
        e.At(d) + e.At(d) * o;
      ==
        e.At(d) * (o + 1);
      <= { MulMonotone(e.At(d), o + 1, v); }
        e.At(d) * v;
      ==
        Volume(ordering, e);
      }
    }
  }

  lemma MulMonotone(a: nat, b: nat, c: nat)
    requires b <= c
    ensures a * b <= a * c
  {
  }
}
