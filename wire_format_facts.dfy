/** What the wire format promises: alignment, the layout of each kind of
    value, the depth limit and the key check, and how the scratch encoders of
    arrays and dictionaries place their bodies. */
module WireFormatFacts {
  import opened WireTypes
  import opened WireFormat

  // ---------------------------------------------------------------------------
  // align

  /** align(n) moves to the least multiple of n at or after pos. */
  lemma {:induction false} AlignUpIsLeast(pos: nat, n: nat, m: nat)
    requires IsAlignment(n) && AlignedTo(m, n) && pos <= m
    ensures AlignUp(pos, n) <= m
  {
    if n == 2 {
      assert m % 2 == 0;
    } else if n == 4 {
      assert m % 4 == 0;
      assert pos % 4 != 0 ==> pos + (4 - pos % 4) <= m;
    } else if n == 8 {
      assert m % 8 == 0;
      assert pos % 8 != 0 ==> pos + (8 - pos % 8) <= m;
    }
  }

  /** Aligning twice is aligning once, and the padding is fewer than n zero
      bytes, none at all exactly when pos is already aligned. */
  lemma {:induction false} PaddingFacts(pos: nat, n: nat)
    requires IsAlignment(n)
    ensures AlignUp(AlignUp(pos, n), n) == AlignUp(pos, n)
    ensures |Padding(pos, n)| < n
    ensures forall i | 0 <= i < |Padding(pos, n)| :: Padding(pos, n)[i] == 0
    ensures Padding(pos, n) == [] <==> AlignedTo(pos, n)
  {
    var r := AlignUp(pos, n);
    assert AlignedTo(r, n);
  }

  /** Positions only matter modulo 8: moving by a multiple of 8 moves the
      aligned position by the same amount and leaves the padding unchanged. */
  lemma {:induction false} AlignUpShift(pos: nat, n: nat, k: nat)
    requires IsAlignment(n)
    ensures AlignUp(pos + 8 * k, n) == AlignUp(pos, n) + 8 * k
    ensures Padding(pos + 8 * k, n) == Padding(pos, n)
  {
    ResiduesShift(pos, k);
    var p := pos + 8 * k;
    assert AlignUp(p, n) - p == AlignUp(pos, n) - pos;
  }

  lemma {:induction false} ResiduesShift(pos: nat, k: nat)
    ensures var p := pos + 8 * k;
      p % 2 == pos % 2 && p % 4 == pos % 4 && p % 8 == pos % 8
  {
    if k > 0 {
      ResiduesShift(pos, k - 1);
      var q := pos + 8 * (k - 1);
      assert pos + 8 * k == q + 8;
      assert (q + 8) % 2 == q % 2 && (q + 8) % 4 == q % 4 && (q + 8) % 8 == q % 8;
    }
  }

  // ---------------------------------------------------------------------------
  // Fixed-width values

  /** Reads a fixed-width value of type t back from the number its bytes
      hold: the partner of Bits. A BOOLEAN is true exactly when it reads 1. */
  function FromBits(t: TypeTag, x: nat): (v: Value)
    requires t.BoolT? || t.Int16T? || t.UInt16T? || t.Int32T? || t.UInt32T? || t.Int64T? || t.UInt64T? || t.DoubleT?
    requires x < Pow256(Alignment(t))
    ensures IsFixed(v) && TypeOf(v) == t
  {
    match t
    case BoolT => Bool(x == 1)
    case Int16T => Int16(SignedFits(x, 2))
    case UInt16T => UInt16(x)
    case Int32T => Int32(SignedFits(x, 4))
    case UInt32T => UInt32(x)
    case Int64T => Int64(SignedFits(x, 8))
    case UInt64T => UInt64(x)
    case DoubleT => Double(x)
  }

  /** Signed(x, w) for a w-byte x lies in the w-byte signed range. */
  function SignedFits(x: nat, w: nat): (r: int)
    requires x < Pow256(w)
    ensures r == Signed(x, w)
    ensures -(Pow256(w) as int) <= 2 * r < Pow256(w)
  {
    Signed(x, w)
  }

  /** A fixed-width value: padding to its own width, then its bytes in the
      encoder's byte order; those bytes read back as the value. */
  lemma {:induction false} FixedLayout(v: Value, depth: nat, pos: nat, order: ByteOrder)
    requires IsFixed(v)
    ensures var w := Enc(v, depth, pos, order);
      && w.outcome == Ok
      && w.bytes == Padding(pos, Width(v)) + FixedBytes(Bits(v), Width(v), order)
      && FromBits(TypeOf(v), DecodeFixed(w.bytes[|Padding(pos, Width(v))|..], order)) == v
  {
    var w := Enc(v, depth, pos, order);
    var pad, fixed := Padding(pos, Width(v)), FixedBytes(Bits(v), Width(v), order);
    EncFixed(v, depth, pos, order);
    assert w.bytes[|pad|..] == fixed;
    FixedRoundTrip(Bits(v), Width(v), order);
  }

  lemma {:induction false} EncFixed(v: Value, depth: nat, pos: nat, order: ByteOrder)
    requires IsFixed(v)
    ensures Enc(v, depth, pos, order) == Written(Padding(pos, Width(v)) + FixedBytes(Bits(v), Width(v), order), Ok)
  {
    var n := Alignment(TypeOf(v));
    assert Body(v, depth, AlignUp(pos, n), order) == Written(FixedBytes(Bits(v), Width(v), order), Ok);
  }

  /** A bool is written exactly as the UInt32 1 or 0 would be. */
  lemma {:induction false} BoolAsUInt32(bit: bool, depth: nat, pos: nat, order: ByteOrder)
    ensures Enc(Bool(bit), depth, pos, order) == Enc(UInt32(if bit then 1 else 0), depth, pos, order)
    ensures Enc(Bool(bit), depth, pos, order).bytes[|Padding(pos, 4)|..]
         == FixedBytes(if bit then 1 else 0, 4, order)
  {
    var u := UInt32(if bit then 1 else 0);
    var start := AlignUp(pos, 4);
    assert Body(Bool(bit), depth, start, order) == Body(u, depth, start, order);
    var w := Enc(Bool(bit), depth, pos, order);
    var pad, fixed := Padding(pos, 4), FixedBytes(if bit then 1 else 0, 4, order);
    assert w.bytes == pad + fixed;
    assert w.bytes[|pad|..] == fixed;
  }

  /** A byte is written as itself, never padded, at any depth. */
  lemma {:induction false} ByteLayout(b: byte, depth: nat, pos: nat, order: ByteOrder)
    ensures Enc(Byte(b), depth, pos, order) == Written([b], Ok)
  {
    assert Padding(pos, 1) == [];
  }

  // ---------------------------------------------------------------------------
  // Strings, object paths, signatures

  /** A string: padding to 4, its length as a UInt32 (cut to 32 bits), its
      bytes and a NUL; an object path is written the same way. */
  lemma {:induction false} StringLayout(s: seq<byte>, depth: nat, pos: nat, order: ByteOrder)
    ensures var w := Enc(Str(s), depth, pos, order);
      var start := |Padding(pos, 4)|;
      && w.outcome == Ok
      && |w.bytes| == start + 4 + |s| + 1
      && w.bytes[..start] == Padding(pos, 4)
      && DecodeFixed(w.bytes[start..start + 4], order) == |s| % 0x1_0000_0000
      && w.bytes[start + 4..start + 4 + |s|] == s
      && w.bytes[start + 4 + |s|] == 0
    ensures Enc(ObjPath(s), depth, pos, order) == Enc(Str(s), depth, pos, order)
  {
    EncString(s, depth, pos, order);
    StringBytesLayout(Padding(pos, 4), s, order);
  }

  lemma {:induction false} EncString(s: seq<byte>, depth: nat, pos: nat, order: ByteOrder)
    ensures Enc(Str(s), depth, pos, order) == Written(Padding(pos, 4) + StringBytes(s, order), Ok)
    ensures Enc(ObjPath(s), depth, pos, order) == Written(Padding(pos, 4) + StringBytes(s, order), Ok)
  {
    assert Alignment(TypeOf(Str(s))) == 4 && Alignment(TypeOf(ObjPath(s))) == 4;
  }

  lemma {:induction false} StringBytesLayout(pad: seq<byte>, s: seq<byte>, order: ByteOrder)
    ensures var b := pad + StringBytes(s, order);
      && |b| == |pad| + 4 + |s| + 1
      && b[..|pad|] == pad
      && DecodeFixed(b[|pad|..|pad| + 4], order) == |s| % 0x1_0000_0000
      && b[|pad| + 4..|pad| + 4 + |s|] == s
      && b[|pad| + 4 + |s|] == 0
  {
    var len := FixedBytes(|s| % 0x1_0000_0000, 4, order);
    var b := pad + StringBytes(s, order);
    assert b == pad + len + s + [0];
    assert b[|pad|..|pad| + 4] == len;
    FixedRoundTrip(|s| % 0x1_0000_0000, 4, order);
  }

  /** A signature: its length as one byte (cut to 8 bits), its bytes and a
      NUL, never padded, and accepted at every depth. */
  lemma {:induction false} SignatureLayout(s: seq<byte>, depth: nat, pos: nat, order: ByteOrder)
    ensures Enc(Sig(s), depth, pos, order) == Written([|s| % 0x100] + s + [0], Ok)
  {
    assert Padding(pos, 1) == [];
  }

  // ---------------------------------------------------------------------------
  // Variants and pointers

  /** A variant: its signature, then the boxed value one level deeper at
      that value's own alignment; refused, with nothing written, at the
      depth limit. */
  lemma {:induction false} VariantLayout(sig: seq<byte>, inner: Value, depth: nat, pos: nat, order: ByteOrder)
    ensures depth < MaxDepth ==>
      Enc(Variant(sig, inner), depth, pos, order)
      == Then([|sig| % 0x100] + sig + [0], Enc(inner, depth + 1, pos + |sig| + 2, order))
    ensures depth >= MaxDepth ==> Enc(Variant(sig, inner), depth, pos, order) == Written([], DepthError)
  {
    var v := Variant(sig, inner);
    assert Padding(pos, 1) == [] && AlignUp(pos, 1) == pos;
    assert Enc(v, depth, pos, order) == Then([], VariantBody(sig, inner, depth, pos, order));
    var body := VariantBody(sig, inner, depth, pos, order);
    assert [] + body.bytes == body.bytes;
    assert |SignatureBytes(sig)| == |sig| + 2;
  }

  /** A pointer is written exactly as the value it points to. */
  lemma {:induction false} PointerTransparent(target: Value, depth: nat, pos: nat, order: ByteOrder)
    ensures Enc(Ptr(target), depth, pos, order) == Enc(target, depth, pos, order)
  {
    var n := Alignment(TypeOf(target));
    assert Alignment(TypeOf(Ptr(target))) == n;
    var start := AlignUp(pos, n);
    EncAligned(target, depth, start, order);
    assert Body(Ptr(target), depth, start, order) == Body(target, depth, start, order);
  }

  /** A value of a type with no wire form writes nothing and fails with an
      invalid type, which the top-level Encode passes on. */
  lemma {:induction false} UnsupportedFails(depth: nat, pos: nat, order: ByteOrder)
    ensures Enc(Unsupported, depth, pos, order) == Written([], InvalidType)
    ensures Surfaced(Enc(Unsupported, depth, pos, order).outcome) == InvalidType
  {
    assert Padding(pos, 1) == [];
  }

  // ---------------------------------------------------------------------------
  // Arrays and dictionaries

  /** An array below the depth limit whose elements all encode in the
      scratch stream: padding to 4, then the scratch bytes framed (their
      UInt32 length, padding to the element alignment, the bytes). The
      scratch bytes start at a position aligned to the element type. */
  lemma {:induction false} ArrayLayout(et: TypeTag, elems: seq<Value>, depth: nat, pos: nat, order: ByteOrder,
                                       body: seq<byte>)
    requires depth < MaxDepth && Elements(elems, depth + 1, 0, order) == Written(body, Ok)
    ensures Enc(Array(et, elems), depth, pos, order)
         == Written(Padding(pos, 4) + Framed(body, AlignUp(pos, 4), Alignment(et), order), Ok)
    ensures AlignedTo(AlignUp(pos, 4) + 4 + |Padding(AlignUp(pos, 4) + 4, Alignment(et))|, Alignment(et))
  {
    var start := AlignUp(pos, 4);
    PaddedIsAligned(start + 4, Alignment(et));
    EncArray(et, elems, depth, pos, order);
    FramedBody(et, elems, depth, start, order, body);
  }

  /** An array at the depth limit, or one of whose elements fails in the
      scratch stream, leaves only its padding to 4, with the depth error or
      the element's outcome. */
  lemma {:induction false} ArrayFails(et: TypeTag, elems: seq<Value>, depth: nat, pos: nat, order: ByteOrder)
    ensures depth >= MaxDepth ==> Enc(Array(et, elems), depth, pos, order) == Written(Padding(pos, 4), DepthError)
    ensures depth < MaxDepth && Elements(elems, depth + 1, 0, order).outcome != Ok ==>
      Enc(Array(et, elems), depth, pos, order)
      == Written(Padding(pos, 4), Elements(elems, depth + 1, 0, order).outcome)
  {
    EncArray(et, elems, depth, pos, order);
    assert Padding(pos, 4) + [] == Padding(pos, 4);
  }

  lemma {:induction false} PaddedIsAligned(p: nat, n: nat)
    requires IsAlignment(n)
    ensures AlignedTo(p + |Padding(p, n)|, n)
  {
  }

  /** An array's bytes are its padding to 4 followed by its body. */
  lemma {:induction false} EncArray(et: TypeTag, elems: seq<Value>, depth: nat, pos: nat, order: ByteOrder)
    ensures Enc(Array(et, elems), depth, pos, order)
         == Then(Padding(pos, 4), ArrayBody(et, elems, depth, AlignUp(pos, 4), order))
  {
    var v := Array(et, elems);
    assert Alignment(TypeOf(v)) == 4;
    assert Body(v, depth, AlignUp(pos, 4), order) == ArrayBody(et, elems, depth, AlignUp(pos, 4), order);
  }

  /** The length prefix of an array or dictionary reads back as the number of
      body bytes, cut to 32 bits. */
  lemma {:induction false} FramedLength(body: seq<byte>, pos: nat, bodyAlign: nat, order: ByteOrder)
    requires IsAlignment(bodyAlign)
    ensures var f := Framed(body, pos, bodyAlign, order);
      && |f| == 4 + |Padding(pos + 4, bodyAlign)| + |body|
      && DecodeFixed(f[..4], order) == |body| % 0x1_0000_0000
      && f[|f| - |body|..] == body
  {
    var f := Framed(body, pos, bodyAlign, order);
    var len := FixedBytes(|body| % 0x1_0000_0000, 4, order);
    assert f[..4] == len;
    FixedRoundTrip(|body| % 0x1_0000_0000, 4, order);
  }

  /** An empty array below the depth limit is a zero length followed by
      padding to the element alignment, in either byte order. */
  lemma {:induction false} EmptyArray(et: TypeTag, depth: nat, pos: nat, order: ByteOrder)
    requires depth < MaxDepth
    ensures Enc(Array(et, []), depth, pos, order)
         == Written(Padding(pos, 4) + [0, 0, 0, 0] + Padding(AlignUp(pos, 4) + 4, Alignment(et)), Ok)
  {
    var pad := Padding(pos, 4);
    var gap := Padding(AlignUp(pos, 4) + 4, Alignment(et));
    var framed := Framed([], AlignUp(pos, 4), Alignment(et), order);
    assert framed == [0, 0, 0, 0] + gap by {
      var len := FixedBytes(0 % 0x1_0000_0000, 4, order);
      assert len == [0, 0, 0, 0] by {
        FixedZero(4, order);
        assert Zeros(4) == [0, 0, 0, 0];
      }
      assert framed == len + gap + [];
    }
    assert Enc(Array(et, []), depth, pos, order) == Written(pad + framed, Ok) by {
      assert Elements([], depth + 1, 0, order) == Written([], Ok);
      ArrayLayout(et, [], depth, pos, order, []);
    }
    assert pad + framed == pad + [0, 0, 0, 0] + gap;
  }

  /** A dictionary: padding to 4; refused one level earlier than an array
      (at depth 63), then refused with an invalid type unless its key type is
      basic; otherwise the entries, each aligned to 8 in the scratch stream
      at depth+2, framed with padding to 8. */
  lemma {:induction false} DictLayout(kt: TypeTag, entries: seq<Entry>, depth: nat, pos: nat, order: ByteOrder)
    ensures depth >= MaxDepth - 1 ==> Enc(Dict(kt, entries), depth, pos, order) == Written(Padding(pos, 4), DepthError)
    ensures depth < MaxDepth - 1 && !IsKeyType(kt) ==>
      Enc(Dict(kt, entries), depth, pos, order) == Written(Padding(pos, 4), InvalidType)
    ensures depth < MaxDepth - 1 && IsKeyType(kt) ==>
      var body := Entries(entries, depth + 2, 0, order);
      var start := AlignUp(pos, 4);
      && (body.outcome != Ok ==> Enc(Dict(kt, entries), depth, pos, order) == Written(Padding(pos, 4), body.outcome))
      && (body.outcome == Ok ==>
            Enc(Dict(kt, entries), depth, pos, order)
            == Written(Padding(pos, 4) + Framed(body.bytes, start, 8, order), Ok))
      && AlignedTo(start + 4 + |Padding(start + 4, 8)|, 8)
  {
    var start := AlignUp(pos, 4);
    assert Enc(Dict(kt, entries), depth, pos, order) == Then(Padding(pos, 4), DictBody(kt, entries, depth, start, order));
  }

  /** Each dictionary entry starts at a multiple of 8 of the scratch stream:
      padding to 8, the key, and the value only if the key encoded. */
  lemma {:induction false} EntryLayout(e: Entry, depth: nat, pos: nat, order: ByteOrder)
    ensures var pad := Padding(pos, 8);
      var key := Enc(e.key, depth, AlignUp(pos, 8), order);
      && AlignedTo(pos + |pad|, 8)
      && (key.outcome != Ok ==> EntryBytes(e, depth, pos, order) == Written(pad + key.bytes, key.outcome))
      && (key.outcome == Ok ==>
            EntryBytes(e, depth, pos, order)
            == Written(pad + key.bytes + Enc(e.val, depth, AlignUp(pos, 8) + |key.bytes|, order).bytes,
                       Enc(e.val, depth, AlignUp(pos, 8) + |key.bytes|, order).outcome))
  {
    var pad := Padding(pos, 8);
    var key := Enc(e.key, depth, AlignUp(pos, 8), order);
    if key.outcome == Ok {
      var val := Enc(e.val, depth, AlignUp(pos, 8) + |key.bytes|, order);
      KeyThenValue(e, depth, AlignUp(pos, 8), order, key, val);
      Assoc(pad, key.bytes, val.bytes);
    }
  }

  // ---------------------------------------------------------------------------
  // Structs

  /** The values of the fields a struct writes, in declaration order. */
  function Kept(fields: seq<Field>): (vs: seq<Value>)
    ensures |vs| <= |fields|
  {
    if fields == [] then []
    else if fields[0].skip then Kept(fields[1..])
    else [fields[0].value] + Kept(fields[1..])
  }

  /** A struct writes its kept fields exactly as an array writes its
      elements, one after another from where the struct starts. */
  lemma {:induction false} FieldsAsElements(fields: seq<Field>, depth: nat, pos: nat, order: ByteOrder)
    ensures Fields(fields, depth, pos, order) == Elements(Kept(fields), depth, pos, order)
    decreases |fields|
  {
    if fields != [] {
      var first := FieldBytes(fields[0], depth, pos, order);
      var next := pos + |first.bytes|;
      FieldsCons(fields, depth, pos, order, first, next);
      FieldsAsElements(fields[1..], depth, next, order);
      var kept := Kept(fields);
      if fields[0].skip {
        assert kept == Kept(fields[1..]) && next == pos;
        assert [] + Fields(fields[1..], depth, pos, order).bytes == Fields(fields[1..], depth, pos, order).bytes;
      } else {
        assert kept == [fields[0].value] + Kept(fields[1..]);
        assert kept[0] == fields[0].value && kept[1..] == Kept(fields[1..]);
        ElementsCons(kept, depth, pos, order, first, next);
      }
    }
  }

  /** A struct: padding to 8 and, below the depth limit, its kept fields in
      order one level deeper with no length prefix; at the limit only the
      padding, with a depth failure. */
  lemma {:induction false} StructLayout(fields: seq<Field>, depth: nat, pos: nat, order: ByteOrder)
    ensures depth < MaxDepth ==>
      Enc(Struct(fields), depth, pos, order)
      == Then(Padding(pos, 8), Elements(Kept(fields), depth + 1, AlignUp(pos, 8), order))
    ensures depth >= MaxDepth ==> Enc(Struct(fields), depth, pos, order) == Written(Padding(pos, 8), DepthError)
  {
    var start := AlignUp(pos, 8);
    assert Enc(Struct(fields), depth, pos, order) == Then(Padding(pos, 8), StructBody(fields, depth, start, order));
    if depth < MaxDepth {
      FieldsAsElements(fields, depth + 1, start, order);
    }
  }

  // ---------------------------------------------------------------------------
  // The container depth limit

  /** k arrays nested inside each other, the innermost an empty byte array. */
  function Nest(k: nat): (v: Value)
    requires k >= 1
    ensures v.Array?
  {
    if k == 1 then Array(ByteT, []) else Array(ArrayT, [Nest(k - 1)])
  }

  /** k nested arrays started at depth d encode exactly when d + k <= 64, and
      otherwise end in a depth failure. */
  lemma {:induction false} NestDepth(k: nat, depth: nat, pos: nat, order: ByteOrder)
    requires k >= 1
    ensures Enc(Nest(k), depth, pos, order).outcome == (if depth + k <= MaxDepth then Ok else DepthError)
    decreases k
  {
    var v := Nest(k);
    var start := AlignUp(pos, 4);
    assert Enc(v, depth, pos, order) == Then(Padding(pos, 4), ArrayBody(v.elemType, v.elems, depth, start, order));
    if depth < MaxDepth {
      if k == 1 {
        assert Elements([], depth + 1, 0, order) == Written([], Ok);
      } else {
        var inner := Enc(Nest(k - 1), depth + 1, 0, order);
        NestDepth(k - 1, depth + 1, 0, order);
        assert v.elems == [Nest(k - 1)] && v.elems[1..] == [];
        assert Elements(v.elems, depth + 1, 0, order).outcome == inner.outcome;
      }
    }
  }

  /** 64 nested arrays are accepted, 65 are refused; and the top-level Encode
      reports the refusal of 65 as success, since it drops depth failures. */
  lemma {:induction false} DepthLimit(pos: nat, order: ByteOrder)
    ensures Enc(Nest(64), 0, pos, order).outcome == Ok
    ensures Enc(Nest(65), 0, pos, order).outcome == DepthError
    ensures Surfaced(Enc(Nest(65), 0, pos, order).outcome) == Ok
  {
    NestDepth(64, 0, pos, order);
    NestDepth(65, 0, pos, order);
  }

  /** EncodeMulti never ends in a depth failure: a run either ends
      normally or stops at a value that fails with an invalid type, and it
      ends normally whenever no value can fail that way. */
  lemma {:induction false} MultiOutcome(vs: seq<Value>, pos: nat, order: ByteOrder)
    ensures Multi(vs, pos, order).outcome != DepthError
    ensures Multi(vs, pos, order).outcome == InvalidType ==>
      exists i, p :: 0 <= i < |vs| && Enc(vs[i], 0, p, order).outcome == InvalidType
    ensures (forall i, p :: 0 <= i < |vs| ==> Enc(vs[i], 0, p, order).outcome != InvalidType) ==>
      Multi(vs, pos, order).outcome == Ok
    decreases |vs|
  {
    if vs != [] {
      var first := Enc(vs[0], 0, pos, order);
      if first.outcome == InvalidType {
        MultiStop(vs, 0, pos, pos, order, [], first);
      } else {
        var next := pos + |first.bytes|;
        MultiUnfold(vs, pos, order, first, next);
        MultiOutcome(vs[1..], next, order);
        var rest := Multi(vs[1..], next, order);
        assert Multi(vs, pos, order).outcome == rest.outcome;
        if rest.outcome == InvalidType {
          var i, p :| 0 <= i < |vs[1..]| && Enc(vs[1..][i], 0, p, order).outcome == InvalidType;
          assert vs[1..][i] == vs[i + 1];
        }
        if forall i, p :: 0 <= i < |vs| ==> Enc(vs[i], 0, p, order).outcome != InvalidType {
          forall i, p | 0 <= i < |vs[1..]|
            ensures Enc(vs[1..][i], 0, p, order).outcome != InvalidType
          {
            assert vs[1..][i] == vs[i + 1];
          }
        }
      }
    }
  }

  // ---------------------------------------------------------------------------
  // Where scratch bodies land
  //
  // An array or dictionary body is encoded by a scratch encoder whose
  // positions start at 0, and then copied into the stream at the position
  // after the length and the padding. Every alignment divides 8, so bytes
  // encoded from a position are the same as from any position 8k further on;
  // a body whose stream position is a multiple of 8 is therefore exactly what
  // encoding its items in place would have written.

  lemma {:induction false} EncShift(v: Value, depth: nat, pos: nat, k: nat, order: ByteOrder)
    ensures Enc(v, depth, pos + 8 * k, order) == Enc(v, depth, pos, order)
    decreases v, 1
  {
    var n := Alignment(TypeOf(v));
    AlignUpShift(pos, n, k);
    BodyShift(v, depth, AlignUp(pos, n), k, order);
  }

  lemma {:induction false} BodyShift(v: Value, depth: nat, pos: nat, k: nat, order: ByteOrder)
    ensures Body(v, depth, pos + 8 * k, order) == Body(v, depth, pos, order)
    decreases v, 0
  {
    match v
    case Variant(s, inner) =>
      VariantShift(s, inner, depth, pos, k, order);
    case Array(et, elems) =>
      ArrayBodyShift(et, elems, depth, pos, k, order);
    case Struct(fields) =>
      if depth < MaxDepth {
        FieldsShift(fields, depth + 1, pos, k, order);
      }
    case Dict(kt, entries) =>
      DictBodyShift(kt, entries, depth, pos, k, order);
    case Ptr(target) =>
      EncShift(target, depth, pos, k, order);
    case _ =>
  }

  lemma {:induction false} VariantShift(s: seq<byte>, inner: Value, depth: nat, pos: nat, k: nat, order: ByteOrder)
    ensures VariantBody(s, inner, depth, pos + 8 * k, order) == VariantBody(s, inner, depth, pos, order)
    decreases inner, 2
  {
    if depth < MaxDepth {
      EncShift(inner, depth + 1, pos + |SignatureBytes(s)|, k, order);
      assert pos + 8 * k + |SignatureBytes(s)| == pos + |SignatureBytes(s)| + 8 * k;
    }
  }

  lemma {:induction false} ArrayBodyShift(et: TypeTag, elems: seq<Value>, depth: nat, pos: nat, k: nat,
                                          order: ByteOrder)
    ensures ArrayBody(et, elems, depth, pos + 8 * k, order) == ArrayBody(et, elems, depth, pos, order)
  {
    AlignUpShift(pos + 4, Alignment(et), k);
    assert pos + 8 * k + 4 == pos + 4 + 8 * k;
  }

  lemma {:induction false} DictBodyShift(kt: TypeTag, entries: seq<Entry>, depth: nat, pos: nat, k: nat,
                                         order: ByteOrder)
    ensures DictBody(kt, entries, depth, pos + 8 * k, order) == DictBody(kt, entries, depth, pos, order)
  {
    AlignUpShift(pos + 4, 8, k);
    assert pos + 8 * k + 4 == pos + 4 + 8 * k;
  }

  lemma {:induction false} FieldsShift(fields: seq<Field>, depth: nat, pos: nat, k: nat, order: ByteOrder)
    ensures Fields(fields, depth, pos + 8 * k, order) == Fields(fields, depth, pos, order)
    decreases fields, 1
  {
    if fields != [] {
      var first := FieldBytes(fields[0], depth, pos, order);
      var next := pos + |first.bytes|;
      FieldShift(fields[0], depth, pos, k, order);
      FieldsShift(fields[1..], depth, next, k, order);
      FieldsCons(fields, depth, pos, order, first, next);
      FieldsCons(fields, depth, pos + 8 * k, order, first, next + 8 * k);
    }
  }

  lemma {:induction false} FieldShift(f: Field, depth: nat, pos: nat, k: nat, order: ByteOrder)
    ensures FieldBytes(f, depth, pos + 8 * k, order) == FieldBytes(f, depth, pos, order)
    decreases f, 0
  {
    if !f.skip {
      EncShift(f.value, depth, pos, k, order);
    }
  }

  lemma {:induction false} ElementsShift(elems: seq<Value>, depth: nat, pos: nat, k: nat, order: ByteOrder)
    ensures Elements(elems, depth, pos + 8 * k, order) == Elements(elems, depth, pos, order)
    decreases |elems|
  {
    if elems != [] {
      var first := Enc(elems[0], depth, pos, order);
      var next := pos + |first.bytes|;
      EncShift(elems[0], depth, pos, k, order);
      ElementsShift(elems[1..], depth, next, k, order);
      ElementsCons(elems, depth, pos, order, first, next);
      ElementsCons(elems, depth, pos + 8 * k, order, first, next + 8 * k);
    }
  }

  lemma {:induction false} EntriesShift(entries: seq<Entry>, depth: nat, pos: nat, k: nat, order: ByteOrder)
    ensures Entries(entries, depth, pos + 8 * k, order) == Entries(entries, depth, pos, order)
    decreases |entries|
  {
    if entries != [] {
      var first := EntryBytes(entries[0], depth, pos, order);
      var next := pos + |first.bytes|;
      EntryShift(entries[0], depth, pos, k, order);
      EntriesShift(entries[1..], depth, next, k, order);
      EntriesCons(entries, depth, pos, order, first, next);
      EntriesCons(entries, depth, pos + 8 * k, order, first, next + 8 * k);
    }
  }

  lemma {:induction false} EntryShift(e: Entry, depth: nat, pos: nat, k: nat, order: ByteOrder)
    ensures EntryBytes(e, depth, pos + 8 * k, order) == EntryBytes(e, depth, pos, order)
  {
    AlignUpShift(pos, 8, k);
    KeyValueShift(e, depth, AlignUp(pos, 8), k, order);
  }

  lemma {:induction false} KeyValueShift(e: Entry, depth: nat, pos: nat, k: nat, order: ByteOrder)
    ensures KeyValue(e, depth, pos + 8 * k, order) == KeyValue(e, depth, pos, order)
  {
    var key := Enc(e.key, depth, pos, order);
    EncShift(e.key, depth, pos, k, order);
    if key.outcome == Ok {
      var valPos := pos + |key.bytes|;
      var val := Enc(e.val, depth, valPos, order);
      EncShift(e.val, depth, valPos, k, order);
      assert pos + 8 * k + |key.bytes| == valPos + 8 * k;
      KeyThenValue(e, depth, pos, order, key, val);
      KeyThenValue(e, depth, pos + 8 * k, order, key, val);
    }
  }

  /** A dictionary body lands at a multiple of 8 in the stream, so its
      scratch bytes are exactly the entries encoded where they land. */
  lemma {:induction false} DictBodyInPlace(entries: seq<Entry>, depth: nat, pos: nat, order: ByteOrder)
    ensures var q := AlignUp(pos, 4) + 4 + |Padding(AlignUp(pos, 4) + 4, 8)|;
      && AlignedTo(q, 8)
      && Entries(entries, depth, q, order) == Entries(entries, depth, 0, order)
  {
    var q := AlignUp(pos, 4) + 4 + |Padding(AlignUp(pos, 4) + 4, 8)|;
    EntriesShift(entries, depth, 0, q / 8, order);
    assert 0 + 8 * (q / 8) == q;
  }

  /** The same holds for an array whose elements align to 8. */
  lemma {:induction false} ArrayBodyInPlace(et: TypeTag, elems: seq<Value>, depth: nat, pos: nat, order: ByteOrder)
    requires Alignment(et) == 8
    ensures var q := AlignUp(pos, 4) + 4 + |Padding(AlignUp(pos, 4) + 4, Alignment(et))|;
      && AlignedTo(q, 8)
      && Elements(elems, depth, q, order) == Elements(elems, depth, 0, order)
  {
    var q := AlignUp(pos, 4) + 4 + |Padding(AlignUp(pos, 4) + 4, 8)|;
    ElementsShift(elems, depth, 0, q / 8, order);
    assert 0 + 8 * (q / 8) == q;
  }

  /** An array whose elements align to less than 8 but hold 8-aligned values
      does not have that property. In an array of one array holding an INT64,
      written from position 0, the INT64 lands at stream offset 12, which is
      not a multiple of 8: the inner array's scratch encoder padded it to 8
      relative to its own origin, while that origin sits at offset 4. */
  lemma {:induction false} NestedBodyMisaligned(x: int64, order: ByteOrder)
    ensures Enc(Array(ArrayT, [Array(Int64T, [Int64(x)])]), 0, 0, order).outcome == Ok
    ensures |Enc(Array(ArrayT, [Array(Int64T, [Int64(x)])]), 0, 0, order).bytes| == 20
    ensures Enc(Array(ArrayT, [Array(Int64T, [Int64(x)])]), 0, 0, order).bytes[12..]
         == FixedBytes(Bits(Int64(x)), 8, order)
  {
    var inner := Array(Int64T, [Int64(x)]);
    var fixed := FixedBytes(Bits(Int64(x)), 8, order);
    var atZero := FixedBytes(8, 4, order) + Padding(4, 8) + fixed;
    assert |atZero| == 16 && atZero[8..] == fixed by {
      PaddedToEight(FixedBytes(8, 4, order), fixed);
    }
    var w := Enc(Array(ArrayT, [inner]), 0, 0, order);
    assert w.outcome == Ok && |w.bytes| == 4 + |atZero| && w.bytes[4 + 8..] == atZero[8..] by {
      assert Enc(inner, 1, 0, order) == Written(atZero, Ok) by {
        InnerArrayAt(x, 0, order);
      }
      ArrayOfOneSuffix(ArrayT, inner, 0, 0, order, atZero, 8);
    }
  }

  /** An array of one value, whose elements align to 4, from an aligned
      position below the depth limit: the value's scratch bytes follow the
      4-byte length directly. */
  lemma {:induction false} ArrayOfOneSuffix(et: TypeTag, inner: Value, depth: nat, pos: nat, order: ByteOrder,
                                            b: seq<byte>, k: nat)
    requires depth < MaxDepth && AlignedTo(pos, 4) && Alignment(et) == 4
    requires Enc(inner, depth + 1, 0, order) == Written(b, Ok) && k <= |b|
    ensures var w := Enc(Array(et, [inner]), depth, pos, order);
      w.outcome == Ok && |w.bytes| == 4 + |b| && w.bytes[4 + k..] == b[k..]
  {
    var head := FixedBytes(|b| % 0x1_0000_0000, 4, order) + Padding(pos + 4, Alignment(et));
    assert Elements([inner], depth + 1, 0, order) == Written(b, Ok) by {
      SingleElement(inner, depth + 1, 0, order, b);
    }
    assert Enc(Array(et, [inner]), depth, pos, order) == Written(head + b, Ok) by {
      ArrayFromAligned(et, [inner], depth, pos, order, b);
    }
    assert |head| == 4 by {
      AlignedShift(pos, 4);
      PaddingFacts(pos + 4, 4);
    }
    SuffixAfter(head, b, k);
  }

  /** Four bytes written from 0, padded to 8, then eight more: the eight
      start at offset 8. */
  lemma {:induction false} PaddedToEight(len: seq<byte>, fixed: seq<byte>)
    requires |len| == 4 && |fixed| == 8
    ensures |len + Padding(4, 8) + fixed| == 16 && (len + Padding(4, 8) + fixed)[8..] == fixed
  {
    PaddingFacts(4, 8);
    SuffixAfter(len + Padding(4, 8), fixed, 0);
  }

  lemma {:induction false} SuffixAfter(x: seq<byte>, y: seq<byte>, k: nat)
    requires k <= |y|
    ensures (x + y)[|x| + k..] == y[k..]
  {
  }

  lemma {:induction false} AlignedShift(pos: nat, n: nat)
    requires n == 4 && AlignedTo(pos, n)
    ensures AlignedTo(pos + n, n)
  {
  }

  /** Encoded where it lands in the stream above (offset 4), the inner array
      would carry no padding and put the INT64 at offset 8. */
  lemma {:induction false} NestedInPlace(x: int64, order: ByteOrder)
    ensures Enc(Array(Int64T, [Int64(x)]), 1, 4, order)
         == Written(FixedBytes(8, 4, order) + FixedBytes(Bits(Int64(x)), 8, order), Ok)
  {
    var len := FixedBytes(8, 4, order);
    var fixed := FixedBytes(Bits(Int64(x)), 8, order);
    InnerArrayAt(x, 4, order);
    assert Padding(8, 8) == [];
    assert len + [] + fixed == len + fixed;
  }

  /** So the scratch bytes of the inner array, written from 0, are not the
      bytes it would write in place. */
  lemma {:induction false} ScratchNotInPlace(x: int64, order: ByteOrder)
    ensures Elements([Array(Int64T, [Int64(x)])], 1, 4, order) != Elements([Array(Int64T, [Int64(x)])], 1, 0, order)
  {
    var inner := Array(Int64T, [Int64(x)]);
    var len := FixedBytes(8, 4, order);
    var fixed := FixedBytes(Bits(Int64(x)), 8, order);
    var atZero := len + Padding(4, 8) + fixed;
    assert Enc(inner, 1, 0, order) == Written(atZero, Ok) by {
      InnerArrayAt(x, 0, order);
    }
    assert Enc(inner, 1, 4, order) == Written(len + fixed, Ok) by {
      NestedInPlace(x, order);
    }
    assert |atZero| == 16 by {
      PaddedToEight(len, fixed);
    }
    LengthsDiffer(inner, 1, 4, 0, order, len + fixed, atZero);
  }

  /** One value written from two positions with different byte counts: the
      one-element runs differ. */
  lemma {:induction false} LengthsDiffer(v: Value, depth: nat, p: nat, q: nat, order: ByteOrder,
                                         a: seq<byte>, b: seq<byte>)
    requires Enc(v, depth, p, order) == Written(a, Ok) && Enc(v, depth, q, order) == Written(b, Ok)
    requires |a| != |b|
    ensures Elements([v], depth, p, order) != Elements([v], depth, q, order)
  {
    SingleElement(v, depth, p, order, a);
    SingleElement(v, depth, q, order, b);
  }

  /** The array of one INT64 at depth 1, from a position aligned to 4: the
      length 8, padding to 8 relative to that origin, then the number. */
  lemma {:induction false} InnerArrayAt(x: int64, pos: nat, order: ByteOrder)
    requires AlignedTo(pos, 4)
    ensures Enc(Array(Int64T, [Int64(x)]), 1, pos, order)
         == Written(FixedBytes(8, 4, order) + Padding(pos + 4, 8) + FixedBytes(Bits(Int64(x)), 8, order), Ok)
  {
    var fixed := FixedBytes(Bits(Int64(x)), 8, order);
    assert Enc(Int64(x), 2, 0, order) == Written(fixed, Ok) by {
      EncFixed(Int64(x), 2, 0, order);
      assert Padding(0, 8) == [];
    }
    assert Enc(Array(Int64T, [Int64(x)]), 1, pos, order)
        == Written(FixedBytes(|fixed| % 0x1_0000_0000, 4, order) + Padding(pos + 4, Alignment(Int64T)) + fixed, Ok) by {
      OneElementArray(Int64T, Int64(x), 1, pos, order, fixed);
    }
    assert |fixed| % 0x1_0000_0000 == 8 && Alignment(Int64T) == 8;
  }

  /** An array of one value from a position aligned to 4, below the depth
      limit, when the value encodes from 0 one level deeper: the length of
      those bytes, padding to the element alignment, the bytes. */
  lemma {:induction false} OneElementArray(et: TypeTag, v: Value, depth: nat, pos: nat, order: ByteOrder,
                                           b: seq<byte>)
    requires depth < MaxDepth && AlignedTo(pos, 4)
    requires Enc(v, depth + 1, 0, order) == Written(b, Ok)
    ensures Enc(Array(et, [v]), depth, pos, order)
         == Written(FixedBytes(|b| % 0x1_0000_0000, 4, order) + Padding(pos + 4, Alignment(et)) + b, Ok)
  {
    assert Elements([v], depth + 1, 0, order) == Written(b, Ok) by {
      SingleElement(v, depth + 1, 0, order, b);
    }
    ArrayFromAligned(et, [v], depth, pos, order, b);
  }

  /** An array that starts aligned, below the depth limit, whose elements
      all encode: the length, the padding, the scratch bytes. */
  lemma {:induction false} ArrayFromAligned(et: TypeTag, elems: seq<Value>, depth: nat, pos: nat, order: ByteOrder,
                                            body: seq<byte>)
    requires depth < MaxDepth && AlignedTo(pos, 4)
    requires Elements(elems, depth + 1, 0, order) == Written(body, Ok)
    ensures Enc(Array(et, elems), depth, pos, order)
         == Written(FixedBytes(|body| % 0x1_0000_0000, 4, order) + Padding(pos + 4, Alignment(et)) + body, Ok)
  {
    EncArrayAligned(et, elems, depth, pos, order);
    FramedBody(et, elems, depth, pos, order, body);
  }

  /** From an aligned position an array writes its body alone. */
  lemma {:induction false} EncArrayAligned(et: TypeTag, elems: seq<Value>, depth: nat, pos: nat, order: ByteOrder)
    requires AlignedTo(pos, 4)
    ensures Enc(Array(et, elems), depth, pos, order) == ArrayBody(et, elems, depth, pos, order)
  {
    PaddingFacts(pos, 4);
    assert AlignUp(pos, 4) == pos;
    EncArray(et, elems, depth, pos, order);
    ThenNothing(ArrayBody(et, elems, depth, pos, order));
  }

  lemma {:induction false} FramedBody(et: TypeTag, elems: seq<Value>, depth: nat, pos: nat, order: ByteOrder,
                                      body: seq<byte>)
    requires depth < MaxDepth
    requires Elements(elems, depth + 1, 0, order) == Written(body, Ok)
    ensures ArrayBody(et, elems, depth, pos, order) == Written(Framed(body, pos, Alignment(et), order), Ok)
  {
  }

  lemma {:induction false} ThenNothing(w: Written)
    ensures Then([], w) == w
  {
    assert [] + w.bytes == w.bytes;
  }

  /** A one-element run writes what its element writes. */
  lemma {:induction false} SingleElement(v: Value, depth: nat, pos: nat, order: ByteOrder, expected: seq<byte>)
    requires Enc(v, depth, pos, order) == Written(expected, Ok)
    ensures Elements([v], depth, pos, order) == Written(expected, Ok)
  {
    assert [v][1..] == [];
    assert Elements([], depth, pos + |expected|, order) == Written([], Ok);
    assert expected + [] == expected;
  }
}
