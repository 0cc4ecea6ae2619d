/** Pixel types of the OME data model and their storage properties
    (lib/ome/files/PixelProperties.cpp).

    The per-type constants come from PixelProperties.h, which is not
    part of this model; the values below are those of the C++ types
    each pixel type is stored as (BIT is stored as one `bool` per
    sample, so it occupies a byte but has one significant bit). */
module PixelProperties {
  import opened Wrappers

  /** The OME PixelType enumeration, in the library's declaration order. */
  datatype PixelType =
    | Int8 | Int16 | Int32
    | UInt8 | UInt16 | UInt32
    | Float | Double
    | Bit
    | ComplexFloat | ComplexDouble

  /** Storage size in bytes of one sample (`bytesPerPixel`). */
  function BytesPerPixel(t: PixelType): (r: nat)
    ensures r in {1, 2, 4, 8, 16}
    ensures r == 1 <==> t in {Int8, UInt8, Bit}
  {
    match t
    case Int8 => 1
    case Int16 => 2
    case Int32 => 4
    case UInt8 => 1
    case UInt16 => 2
    case UInt32 => 4
    case Float => 4
    case Double => 8
    case Bit => 1
    case ComplexFloat => 8
    case ComplexDouble => 16
  }

  /** Storage size in bits of one sample (`bitsPerPixel`). */
  function BitsPerPixel(t: PixelType): (r: nat)
    ensures r == 8 * BytesPerPixel(t)
  {
    match t
    case Int8 => 8
    case Int16 => 16
    case Int32 => 32
    case UInt8 => 8
    case UInt16 => 16
    case UInt32 => 32
    case Float => 32
    case Double => 64
    case Bit => 8
    case ComplexFloat => 64
    case ComplexDouble => 128
  }

  /** Number of bits that carry information (`significantBitsPerPixel`). */
  function SignificantBitsPerPixel(t: PixelType): (r: nat)
    ensures 0 < r <= BitsPerPixel(t)
    ensures r == BitsPerPixel(t) <==> t != Bit
  {
    match t
    case Int8 => 8
    case Int16 => 16
    case Int32 => 32
    case UInt8 => 8
    case UInt16 => 16
    case UInt32 => 32
    case Float => 32
    case Double => 64
    case Bit => 1
    case ComplexFloat => 64
    case ComplexDouble => 128
  }

  /** `isSigned`: every type except the unsigned integers and BIT. */
  predicate IsSigned(t: PixelType) {
    match t
    case UInt8 | UInt16 | UInt32 | Bit => false
    case _ => true
  }

  /** `isInteger`: the signed and unsigned integer types and BIT. */
  predicate IsInteger(t: PixelType) {
    match t
    case Int8 | Int16 | Int32 | UInt8 | UInt16 | UInt32 | Bit => true
    case _ => false
  }

  /** `isFloatingPoint` is defined by the library as the negation of `isInteger`. */
  predicate IsFloatingPoint(t: PixelType) {
    !IsInteger(t)
  }

  /** `isComplex`: the two complex floating-point types. */
  predicate IsComplex(t: PixelType) {
    match t
    case ComplexFloat | ComplexDouble => true
    case _ => false
  }

  /** How the four properties relate: unsigned types are integers,
      complex types are signed and not integers, and the three
      stored sizes agree. */
  lemma PropertiesConsistent(t: PixelType)
    ensures !IsSigned(t) ==> IsInteger(t)
    ensures IsComplex(t) ==> IsSigned(t) && IsFloatingPoint(t)
    ensures IsFloatingPoint(t) <==> !IsInteger(t)
    ensures BitsPerPixel(t) == 8 * BytesPerPixel(t)
  {
  }

  /** The properties a reverse lookup asks for. */
  predicate Matches(t: PixelType, size: nat, isSigned: bool, isInteger: bool, isComplex: bool) {
    BytesPerPixel(t) == size && IsSigned(t) == isSigned
    && IsInteger(t) == isInteger && IsComplex(t) == isComplex
  }

  /** True when the flags themselves are contradictory, which the
      library reports as a logic error rather than as "no type found". */
  predicate FlagsContradict(isSigned: bool, isInteger: bool, isComplex: bool) {
    (!isSigned && (!isInteger || isComplex)) || (isSigned && isComplex && isInteger)
  }

  /** `pixelTypeFromBytes`: the pixel type with the given byte size
      and properties. BIT is never returned (UINT8 has the same
      properties and is tried first). */
  function PixelTypeFromBytes(size: nat, isSigned: bool, isInteger: bool, isComplex: bool): (r: Result<PixelType>)
    ensures r.Ok? ==> r.value != Bit && Matches(r.value, size, isSigned, isInteger, isComplex)
    ensures (exists t :: t != Bit && Matches(t, size, isSigned, isInteger, isComplex)) ==> r.Ok?
    ensures r.Err? ==> (r.error.LogicError? <==> FlagsContradict(isSigned, isInteger, isComplex))
    ensures r.Err? ==> r.error.LogicError? || r.error.RuntimeError?
  {
    if !isSigned then
      if !isInteger || isComplex then
        Err(LogicError("Unsigned pixel types can't be floating point or complex"))
      else if size == BytesPerPixel(UInt8) then Ok(UInt8)
      else if size == BytesPerPixel(UInt16) then Ok(UInt16)
      else if size == BytesPerPixel(UInt32) then Ok(UInt32)
      else Err(RuntimeError("No suitable unsigned integer pixel type found"))
    else if isComplex then
      if isInteger then
        Err(LogicError("Complex pixel types must be floating point"))
      else if size == BytesPerPixel(ComplexFloat) then Ok(ComplexFloat)
      else if size == BytesPerPixel(ComplexDouble) then Ok(ComplexDouble)
      else Err(RuntimeError("No suitable complex pixel type found"))
    else if !isInteger then
      if size == BytesPerPixel(Float) then Ok(Float)
      else if size == BytesPerPixel(Double) then Ok(Double)
      else Err(RuntimeError("No suitable floating point pixel type found"))
    else
      if size == BytesPerPixel(Int8) then Ok(Int8)
      else if size == BytesPerPixel(Int16) then Ok(Int16)
      else if size == BytesPerPixel(Int32) then Ok(Int32)
      else Err(RuntimeError("No suitable signed integer pixel type found"))
  }

  /** `pixelTypeFromBits`: bit sizes that are not whole bytes are
      rejected; the rest are looked up by byte size. */
  function PixelTypeFromBits(size: nat, isSigned: bool, isInteger: bool, isComplex: bool): (r: Result<PixelType>)
    ensures size % 8 != 0 ==> r.Err? && r.error.RuntimeError?
    ensures size % 8 == 0 ==> r == PixelTypeFromBytes(size / 8, isSigned, isInteger, isComplex)
    ensures r.Ok? ==> BitsPerPixel(r.value) == size
  {
    if size % 8 != 0 then Err(RuntimeError("No suitable pixel type found"))
    else PixelTypeFromBytes(size / 8, isSigned, isInteger, isComplex)
  }

  /** Every pixel type except BIT is found again from its own properties:
      the reverse lookup inverts the property tables. */
  lemma FromBytesInverts(t: PixelType)
    requires t != Bit
    ensures PixelTypeFromBytes(BytesPerPixel(t), IsSigned(t), IsInteger(t), IsComplex(t)) == Ok(t)
    ensures PixelTypeFromBits(BitsPerPixel(t), IsSigned(t), IsInteger(t), IsComplex(t)) == Ok(t)
  {
    var r := PixelTypeFromBytes(BytesPerPixel(t), IsSigned(t), IsInteger(t), IsComplex(t));
    assert r.Ok?;
    assert Matches(r.value, BytesPerPixel(t), IsSigned(t), IsInteger(t), IsComplex(t));
  }

  /** BIT is looked up as UINT8, the unsigned type of the same storage size. */
  lemma BitLooksUpAsUInt8()
    ensures PixelTypeFromBytes(BytesPerPixel(Bit), IsSigned(Bit), IsInteger(Bit), IsComplex(Bit)) == Ok(UInt8)
  {
  }
}
