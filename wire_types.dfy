/** The values the D-Bus marshaller accepts, the type tags that decide their
    alignment, and the byte layout of fixed-width integers in either byte
    order. */
module WireTypes {

  type byte = x: int | 0 <= x < 0x100
  type int16 = x: int | -0x8000 <= x < 0x8000
  type uint16 = x: int | 0 <= x < 0x1_0000
  type int32 = x: int | -0x8000_0000 <= x < 0x8000_0000
  type uint32 = x: int | 0 <= x < 0x1_0000_0000
  type int64 = x: int | -0x8000_0000_0000_0000 <= x < 0x8000_0000_0000_0000
  type uint64 = x: int | 0 <= x < 0x1_0000_0000_0000_0000

  /** The byte order an encoder is created with; fixed for its lifetime. */
  datatype ByteOrder = LittleEndian | BigEndian

  /** The static type of a value, as far as alignment and the dictionary
      key check need it. UnsupportedT stands for every host type that has no
      wire form (int, uint, channels, ...). */
  datatype TypeTag =
    | ByteT | BoolT | Int16T | UInt16T | Int32T | UInt32T | Int64T | UInt64T | DoubleT
    | StringT | ObjectPathT | SignatureT | VariantT
    | ArrayT | StructT | MapT
    | PtrT(target: TypeTag)
    | UnsupportedT

  /** A struct field; `skip` is set for unexported fields and fields tagged
      `dbus:"-"`. */
  datatype Field = Field(value: Value, skip: bool)

  /** One key/value pair of a dictionary. */
  datatype Entry = Entry(key: Value, val: Value)

  /** The closed set of values the encoder dispatches on. A double is kept as
      its raw 64-bit pattern; strings, object paths and signatures are their
      bytes; an array carries its element type, a dictionary its key type.
      Unsupported stands for a value of a host type with no wire form. */
  datatype Value =
    | Byte(b: byte)
    | Bool(bit: bool)
    | Int16(i16: int16)
    | UInt16(u16: uint16)
    | Int32(i32: int32)
    | UInt32(u32: uint32)
    | Int64(i64: int64)
    | UInt64(u64: uint64)
    | Double(bits: uint64)
    | Str(s: seq<byte>)
    | ObjPath(path: seq<byte>)
    | Sig(sig: seq<byte>)
    | Variant(vsig: seq<byte>, inner: Value)
    | Array(elemType: TypeTag, elems: seq<Value>)
    | Struct(fields: seq<Field>)
    | Dict(keyType: TypeTag, entries: seq<Entry>)
    | Ptr(target: Value)
    | Unsupported

  /** The type tag of a value. */
  function TypeOf(v: Value): TypeTag {
    match v
    case Byte(_) => ByteT
    case Bool(_) => BoolT
    case Int16(_) => Int16T
    case UInt16(_) => UInt16T
    case Int32(_) => Int32T
    case UInt32(_) => UInt32T
    case Int64(_) => Int64T
    case UInt64(_) => UInt64T
    case Double(_) => DoubleT
    case Str(_) => StringT
    case ObjPath(_) => ObjectPathT
    case Sig(_) => SignatureT
    case Variant(_, _) => VariantT
    case Array(_, _) => ArrayT
    case Struct(_) => StructT
    case Dict(_, _) => MapT
    case Ptr(t) => PtrT(TypeOf(t))
    case Unsupported => UnsupportedT
  }

  /** The wire alignment of a type. A pointer aligns like its target, and a
      type without a wire form falls back to 1. */
  function Alignment(t: TypeTag): (n: nat)
    ensures n == 1 || n == 2 || n == 4 || n == 8
    ensures 8 % n == 0
  {
    match t
    case ByteT | SignatureT | VariantT | UnsupportedT => 1
    case Int16T | UInt16T => 2
    case BoolT | Int32T | UInt32T | StringT | ObjectPathT | ArrayT | MapT => 4
    case Int64T | UInt64T | DoubleT | StructT => 8
    case PtrT(target) => Alignment(target)
  }

  /** The basic types: the only ones a dictionary may be keyed by. */
  predicate IsKeyType(t: TypeTag)
    ensures IsKeyType(t) ==> !(t.ArrayT? || t.StructT? || t.MapT? || t.VariantT? || t.UnsupportedT?)
  {
    match t
    case ByteT | BoolT | Int16T | UInt16T | Int32T | UInt32T | Int64T | UInt64T | DoubleT => true
    case StringT | ObjectPathT | SignatureT => true
    case _ => false
  }


  // ---------------------------------------------------------------------------
  // Fixed-width numbers on the wire

  /** The values binwrite writes: fixed-width numbers, and a bool, which
      travels as a UInt32. */
  predicate IsFixed(v: Value) {
    v.Bool? || v.Int16? || v.UInt16? || v.Int32? || v.UInt32? || v.Int64? || v.UInt64? || v.Double?
  }

  /** The number of bytes of a fixed-width value, which is also its alignment. */
  function Width(v: Value): (w: nat)
    requires IsFixed(v)
    ensures w == Alignment(TypeOf(v))
  {
    match v
    case Int16(_) | UInt16(_) => 2
    case Bool(_) | Int32(_) | UInt32(_) => 4
    case Int64(_) | UInt64(_) | Double(_) => 8
  }

  /** The unsigned bit pattern of a fixed-width value: a bool is 1 or 0,
      a signed number its two's complement, a double its raw bits. */
  function Bits(v: Value): (x: nat)
    requires IsFixed(v)
    ensures x < Pow256(Width(v))
    ensures v.Int16? ==> Signed(x, 2) == v.i16
    ensures v.Int32? ==> Signed(x, 4) == v.i32
    ensures v.Int64? ==> Signed(x, 8) == v.i64
  {
    match v
    case Bool(bit) => if bit then 1 else 0
    case Int16(x) => TwosComplement(x, 2)
    case UInt16(x) => x
    case Int32(x) => TwosComplement(x, 4)
    case UInt32(x) => x
    case Int64(x) => TwosComplement(x, 8)
    case UInt64(x) => x
    case Double(x) => x
  }

  function Pow256(w: nat): (r: nat)
    ensures r >= 1
  {
    if w == 0 then 1 else 256 * Pow256(w - 1)
  }

  /** The signed number a w-byte two's-complement pattern r stands for. */
  function Signed(r: nat, w: nat): int {
    if 2 * r >= Pow256(w) then r - Pow256(w) else r
  }

  /** The w-byte two's-complement pattern of a signed x, as an unsigned number:
      it fits in w bytes and reads back as x. */
  function TwosComplement(x: int, w: nat): (r: nat)
    requires -(Pow256(w) as int) <= 2 * x < Pow256(w)
    ensures r < Pow256(w)
    ensures Signed(r, w) == x
  {
    if x < 0 then x + Pow256(w) else x
  }

  /** The w bytes of x, least significant first. */
  function LittleEndianBytes(x: nat, w: nat): (r: seq<byte>)
    requires x < Pow256(w)
    ensures |r| == w
  {
    if w == 0 then []
    else
      assert x / 256 < Pow256(w - 1);
      [x % 256] + LittleEndianBytes(x / 256, w - 1)
  }

  /** The number whose little-endian bytes are bs. */
  function FromLittleEndian(bs: seq<byte>): (x: nat)
    ensures x < Pow256(|bs|)
  {
    if bs == [] then 0
    else
      var rest := FromLittleEndian(bs[1..]);
      assert bs[0] + 256 * rest <= 255 + 256 * (Pow256(|bs| - 1) - 1);
      bs[0] + 256 * rest
  }

  function Reverse(s: seq<byte>): (r: seq<byte>)
    ensures |r| == |s|
    ensures forall i :: 0 <= i < |s| ==> r[i] == s[|s| - 1 - i]
  {
    if s == [] then [] else Reverse(s[1..]) + [s[0]]
  }

  /** What binary.Write puts on the wire for a w-byte unsigned x. */
  function FixedBytes(x: nat, w: nat, order: ByteOrder): (r: seq<byte>)
    requires x < Pow256(w)
    ensures |r| == w
  {
    match order
    case LittleEndian => LittleEndianBytes(x, w)
    case BigEndian => Reverse(LittleEndianBytes(x, w))
  }

  /** Reads back a fixed-width unsigned number in the given byte order. */
  function DecodeFixed(bs: seq<byte>, order: ByteOrder): (x: nat)
    ensures x < Pow256(|bs|)
  {
    match order
    case LittleEndian => FromLittleEndian(bs)
    case BigEndian => FromLittleEndian(Reverse(bs))
  }

  lemma {:induction false} LittleEndianRoundTrip(x: nat, w: nat)
    requires x < Pow256(w)
    ensures FromLittleEndian(LittleEndianBytes(x, w)) == x
  {
    if w > 0 {
      LittleEndianRoundTrip(x / 256, w - 1);
      var bs := LittleEndianBytes(x, w);
      assert bs[1..] == LittleEndianBytes(x / 256, w - 1);
    }
  }

  lemma ReverseReverse(s: seq<byte>)
    ensures Reverse(Reverse(s)) == s
  {
  }

  /** Fixed-width bytes decode, in the same byte order, to the number written. */
  lemma {:induction false} FixedRoundTrip(x: nat, w: nat, order: ByteOrder)
    requires x < Pow256(w)
    ensures DecodeFixed(FixedBytes(x, w, order), order) == x
  {
    LittleEndianRoundTrip(x, w);
    if order == BigEndian {
      ReverseReverse(LittleEndianBytes(x, w));
    }
  }

  /** k zero bytes. */
  function Zeros(k: nat): (r: seq<byte>)
    ensures |r| == k
    ensures forall i :: 0 <= i < k ==> r[i] == 0
  {
    if k == 0 then [] else [0] + Zeros(k - 1)
  }

  /** Zero encodes as w zero bytes in either byte order. */
  lemma {:induction false} FixedZero(w: nat, order: ByteOrder)
    ensures FixedBytes(0, w, order) == Zeros(w)
  {
    if w > 0 {
      FixedZero(w - 1, LittleEndian);
    }
  }
}
