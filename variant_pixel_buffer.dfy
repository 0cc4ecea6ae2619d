/** A pixel buffer of any pixel type (lib/ome/files/VariantPixelBuffer.cpp):
    a tagged union whose alternatives are shared pointers to typed
    buffers, one alternative per pixel type. A pointer may be null; every
    query on a null buffer is the runtime error "Null pixel type".

    The typed buffer (`PixelBuffer<T>`, whose header is not part of this
    model) is a class with a shape, its elements in storage order, and
    the fixed attributes the queries report. Two typed buffers compare
    equal when their shapes and elements are equal; assigning one to
    another copies the elements. Element values are abstract integers. */
module Variant {
  import opened Wrappers
  import opened PixelProperties
  import opened PixelBuffer

  datatype Endian = Big | Little | Native

  /** The shape and elements of a typed buffer, as a value. */
  datatype Contents = Contents(shape: seq<nat>, elements: seq<int>)

  /** The number of elements a shape holds. */
  function Product(shape: seq<nat>): nat {
    if shape == [] then 1 else shape[0] * Product(shape[1..])
  }

  /** `PixelBuffer<T>`. */
  class TypedBuffer {
    var pixelType: PixelType
    var endian: Endian
    var order: StorageOrder
    var managed: bool
    var hasData: bool
    var contents: Contents

    /** The elements fill the shape. */
    ghost predicate Valid()
      reads this
    {
      |contents.elements| == Product(contents.shape)
    }

    constructor(t: PixelType, e: Endian, o: StorageOrder, m: bool, c: Contents)
      requires |c.elements| == Product(c.shape)
      ensures Valid()
      ensures pixelType == t && endian == e && order == o && managed == m && hasData && contents == c
    {
      pixelType, endian, order, managed, hasData, contents := t, e, o, m, true, c;
    }
  }

  /** What a variant holds, as a value: the alternative, and the
      contents of the buffer unless the pointer is null. */
  datatype Held = Held(kind: PixelType, data: Option<Contents>)

  /** `PBCompareVisitor`: buffers of different alternatives never
      compare equal; of the same one, both must be non-null and equal. */
  predicate Compare(a: Held, b: Held) {
    a.kind == b.kind && a.data.Some? && b.data.Some? && a.data.value == b.data.value
  }

  /** Equality is symmetric and transitive, and a variant equals itself
      exactly when its buffer is not null. */
  lemma CompareIsPartialEquivalence(a: Held, b: Held, c: Held)
    ensures Compare(a, b) <==> Compare(b, a)
    ensures Compare(a, b) && Compare(b, c) ==> Compare(a, c)
    ensures Compare(a, a) <==> a.data.Some?
    ensures Compare(a, b) ==> a == b
  {
  }

  /** Buffers of different pixel types are never equal, and a null
      buffer equals nothing. */
  lemma CompareNeedsTypeAndData(a: Held, b: Held)
    ensures a.kind != b.kind ==> !Compare(a, b)
    ensures a.data.None? || b.data.None? ==> !Compare(a, b)
    ensures a.kind == b.kind && a.data.Some? && a.data == b.data ==> Compare(a, b)
  {
  }

  const NullBuffer := RuntimeError("Null pixel type")
  const AssignConversion := RuntimeError("Unsupported pixel type conversion for assignment")
  const AssignShape := RuntimeError("Buffer dimensions incompatible for assignment")
  const BufferConversion := RuntimeError("Unsupported pixel type conversion for buffer")

  class VariantPixelBuffer {
    /** The alternative: the pixel type whose buffer type is held. */
    var kind: PixelType
    var buffer: TypedBuffer?

    ghost predicate Valid()
      reads this, buffer
    {
      buffer != null ==> buffer.Valid()
    }

    function Value(): (h: Held)
      reads this, buffer
      ensures h.kind == kind
      ensures h.data.Some? <==> buffer != null
    {
      Held(kind, if buffer == null then None else Some(buffer.contents))
    }

    constructor(k: PixelType, b: TypedBuffer?)
      ensures kind == k && buffer == b
    {
      kind, buffer := k, b;
    }

    /** The copy constructor copies the pointer: the copy shares the
        original's buffer. */
    constructor Copy(other: VariantPixelBuffer)
      ensures kind == other.kind && buffer == other.buffer
      ensures Value() == other.Value()
    {
      kind, buffer := other.kind, other.buffer;
    }

    /** `operator==`. */
    predicate Equals(rhs: VariantPixelBuffer)
      reads this, buffer, rhs, rhs.buffer
    {
      Compare(Value(), rhs.Value())
    }

    /** `operator!=`: the negation of `operator==`. */
    predicate NotEquals(rhs: VariantPixelBuffer)
      reads this, buffer, rhs, rhs.buffer
    {
      !Equals(rhs)
    }

    // The queries: each fails on a null buffer and otherwise reports
    // the typed buffer's own value.

    function IsValid(): (r: Result<bool>)
      reads this, buffer
      ensures r.Err? <==> buffer == null
    {
      if buffer == null then Err(NullBuffer) else Ok(buffer.hasData)
    }

    function Managed(): (r: Result<bool>)
      reads this, buffer
      ensures r.Err? <==> buffer == null
    {
      if buffer == null then Err(NullBuffer) else Ok(buffer.managed)
    }

    function NumElements(): (r: Result<nat>)
      reads this, buffer
      ensures r.Err? <==> buffer == null
      ensures Valid() && r.Ok? ==> r.value == |buffer.contents.elements|
    {
      if buffer == null then Err(NullBuffer) else Ok(Product(buffer.contents.shape))
    }

    function NumDimensions(): (r: Result<nat>)
      reads this, buffer
      ensures r.Err? <==> buffer == null
    {
      if buffer == null then Err(NullBuffer) else Ok(|buffer.contents.shape|)
    }

    function Shape(): (r: Result<seq<nat>>)
      reads this, buffer
      ensures r.Err? <==> buffer == null
    {
      if buffer == null then Err(NullBuffer) else Ok(buffer.contents.shape)
    }

    function Order(): (r: Result<StorageOrder>)
      reads this, buffer
      ensures r.Err? <==> buffer == null
    {
      if buffer == null then Err(NullBuffer) else Ok(buffer.order)
    }

    function PixelTypeOf(): (r: Result<PixelType>)
      reads this, buffer
      ensures r.Err? <==> buffer == null
    {
      if buffer == null then Err(NullBuffer) else Ok(buffer.pixelType)
    }

    function EndianOf(): (r: Result<Endian>)
      reads this, buffer
      ensures r.Err? <==> buffer == null
    {
      if buffer == null then Err(NullBuffer) else Ok(buffer.endian)
    }

    /** `data()`: the raw storage, here the buffer object itself. */
    function Data(): (r: Result<TypedBuffer>)
      reads this
      ensures r.Err? <==> buffer == null
      ensures r.Ok? ==> r.value == buffer
    {
      if buffer == null then Err(NullBuffer) else Ok(buffer)
    }

    /** `array<T>()` through `PBBufferVisitor`: the elements, when `t` is
        the held alternative; any other type is a conversion error, even
        for a null buffer. */
    function ArrayOf(t: PixelType): (r: Result<seq<int>>)
      reads this, buffer
      ensures t != kind ==> r == Err(BufferConversion)
      ensures t == kind && buffer == null ==> r == Err(NullBuffer)
      ensures r.Ok? ==> buffer != null && r.value == buffer.contents.elements
    {
      if t != kind then Err(BufferConversion)
      else if buffer == null then Err(NullBuffer)
      else Ok(buffer.contents.elements)
    }

    /** `operator=`: copies the elements of a buffer of the same type and
        shape; another type, or another shape, is an error that changes
        nothing. The pointers are dereferenced only when the alternatives
        agree, so only then must neither be null. */
    method Assign(rhs: VariantPixelBuffer) returns (r: Outcome)
      requires kind == rhs.kind ==> buffer != null && rhs.buffer != null
      modifies buffer
      ensures kind != rhs.kind ==> r == Fail(AssignConversion)
      ensures kind == rhs.kind && old(buffer.contents.shape) != old(rhs.buffer.contents.shape) ==> r == Fail(AssignShape)
      ensures r.Pass? <==> kind == rhs.kind && old(buffer.contents.shape) == old(rhs.buffer.contents.shape)
      ensures r.Fail? ==> buffer == null || unchanged(buffer)
      ensures r.Pass? ==> buffer.contents == old(rhs.buffer.contents) && Equals(rhs)
      ensures buffer != null ==> buffer.pixelType == old(buffer.pixelType) && buffer.endian == old(buffer.endian)
      ensures buffer != null ==> buffer.order == old(buffer.order) && buffer.managed == old(buffer.managed)
      ensures buffer != null ==> buffer.hasData == old(buffer.hasData)
    {
      if kind != rhs.kind {
        return Fail(AssignConversion);
      }
      if buffer.contents.shape != rhs.buffer.contents.shape {
        return Fail(AssignShape);
      }
      buffer.contents := rhs.buffer.contents;
      r := Pass;
    }

    /** `assign(begin, end)`: overwrites the elements with a range whose
        value type `t` must be the held one; the range fills the buffer. */
    method AssignRange(values: seq<int>, t: PixelType) returns (r: Outcome)
      requires Valid()
      requires buffer != null ==> |values| == |buffer.contents.elements|
      modifies buffer
      ensures Valid()
      ensures t != kind ==> r == Fail(AssignConversion)
      ensures t == kind && buffer == null ==> r == Fail(NullBuffer)
      ensures r.Pass? <==> t == kind && buffer != null
      ensures r.Fail? ==> buffer == null || unchanged(buffer)
      ensures r.Pass? ==> buffer.contents == Contents(old(buffer.contents.shape), values)
      ensures buffer != null ==> buffer.pixelType == old(buffer.pixelType) && buffer.order == old(buffer.order)
    {
      if t != kind {
        return Fail(AssignConversion);
      }
      if buffer == null {
        return Fail(NullBuffer);
      }
      buffer.contents := Contents(buffer.contents.shape, values);
      r := Pass;
    }
  }

  /** A copy shares the buffer: it equals the original exactly when the
      buffer is not null. */
  lemma CopyEqualsOriginal(a: VariantPixelBuffer, b: VariantPixelBuffer)
    requires a.kind == b.kind && a.buffer == b.buffer
    ensures a.Equals(b) <==> a.buffer != null
    ensures a.NotEquals(b) <==> a.buffer == null
  {
  }

  /** `!=` is the negation of `==`, and neither depends on the order
      of the operands. */
  lemma NotEqualsNegates(a: VariantPixelBuffer, b: VariantPixelBuffer)
    ensures a.NotEquals(b) <==> !a.Equals(b)
    ensures a.Equals(b) <==> b.Equals(a)
  {
    CompareIsPartialEquivalence(a.Value(), b.Value(), b.Value());
  }

  /** Every query fails on a null buffer and succeeds otherwise. */
  lemma QueriesNeedBuffer(v: VariantPixelBuffer)
    ensures v.buffer == null <==> v.IsValid().Err?
    ensures v.buffer == null ==> v.Managed().Err? && v.NumElements().Err? && v.NumDimensions().Err?
    ensures v.buffer == null ==> v.Shape().Err? && v.Order().Err? && v.PixelTypeOf().Err? && v.EndianOf().Err?
    ensures v.buffer == null ==> v.Data().Err? && v.ArrayOf(v.kind).Err?
    ensures v.buffer != null ==> v.Managed().Ok? && v.NumElements().Ok? && v.NumDimensions().Ok?
    ensures v.buffer != null ==> v.Shape().Ok? && v.Order().Ok? && v.PixelTypeOf().Ok? && v.EndianOf().Ok?
    ensures v.buffer != null ==> v.Data().Ok? && v.ArrayOf(v.kind).Ok?
  {
  }
}
