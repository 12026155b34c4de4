/** The Encoder of encoder.go: a byte stream, a byte order and the running
    position, updated in place by align, binwrite and the recursive encode.
    Every method is proved to append exactly the bytes WireFormat gives. */
module DBusEncoder {
  import opened WireTypes
  import opened WireFormat

  /** Orders encode's recursive calls: a Bool, string or container length
      re-enters encode with a UInt32, a signature with a Byte, and a variant
      with its Signature; every other call goes to a smaller value. */
  function CallRank(v: Value): nat {
    match v
    case Byte(_) | UInt32(_) => 0
    case Sig(_) => 1
    case _ => 2
  }

  class Encoder {
    /** Everything this encoder has written to its writer, in order. */
    var out: seq<byte>
    const order: ByteOrder
    var pos: nat

    /** The position is the number of bytes written since creation. */
    ghost predicate Valid()
      reads this
    {
      pos == |out|
    }

    /** NewEncoder. */
    constructor (order: ByteOrder)
      ensures Valid() && out == [] && this.order == order
    {
      this.order := order;
      out := [];
      pos := 0;
    }

    /** align(n): pad with zero bytes up to the next multiple of n. */
    method Align(n: nat)
      requires Valid() && IsAlignment(n)
      modifies this
      ensures Valid() && AlignedTo(pos, n)
      ensures pos == AlignUp(old(pos), n)
      ensures out == old(out) + Padding(old(pos), n)
    {
      if pos % n != 0 {
        // (pos + n - 1) &^ (n - 1), which for a power of two n rounds up
        var newpos := pos + (n - pos % n);
        assert newpos == AlignUp(pos, n);
        out := out + Zeros(newpos - pos);
        pos := newpos;
      } else {
        assert Padding(pos, n) == [];
        assert out + [] == out;
      }
    }

    /** binwrite: the w bytes of x in the encoder's byte order; the caller
        advances pos. */
    method BinWrite(x: nat, w: nat)
      requires x < Pow256(w)
      modifies this
      ensures out == old(out) + FixedBytes(x, w, order)
      ensures pos == old(pos)
    {
      out := out + FixedBytes(x, w, order);
    }

    /** Encode: encode v at depth 0. The deferred recover drops every caught
        failure except an invalid type, which is re-raised. */
    method Encode(v: Value) returns (r: Outcome)
      requires Valid()
      modifies this
      ensures Valid()
      ensures out == old(out) + Enc(v, 0, old(pos), order).bytes
      ensures r == Surfaced(Enc(v, 0, old(pos), order).outcome)
    {
      var inner := EncodeValue(v, 0);
      if inner == InvalidType {
        r := InvalidType;
      } else {
        r := Ok;
      }
    }

    /** EncodeMulti: Encode each value in turn. Since Encode never reports an
        error, only an invalid type (a panic) stops the run. */
    method EncodeMulti(vs: seq<Value>) returns (r: Outcome)
      requires Valid()
      modifies this
      ensures Valid()
      ensures out == old(out) + Multi(vs, old(pos), order).bytes
      ensures r == Multi(vs, old(pos), order).outcome
    {
      ghost var written: seq<byte> := [];
      var i := 0;
      while i < |vs|
        invariant 0 <= i <= |vs| && Valid()
        invariant out == old(out) + written
        invariant Multi(vs, old(pos), order) == Then(written, Multi(vs[i..], pos, order))
      {
        var e;
        e, written := EncodeNext(vs, i, old(pos), old(out), written);
        if e != Ok {
          r := e;
          return;
        }
        i := i + 1;
      }
      assert vs[i..] == [] && written + [] == written;
      r := Ok;
    }

    /** One round of EncodeMulti: Encode the next value; on an invalid type
        the run is over and has written all it will write. */
    method EncodeNext(vs: seq<Value>, i: nat, ghost start: nat, ghost base: seq<byte>, ghost written: seq<byte>)
      returns (e: Outcome, ghost written': seq<byte>)
      requires Valid() && i < |vs| && out == base + written
      requires Multi(vs, start, order) == Then(written, Multi(vs[i..], pos, order))
      modifies this
      ensures Valid() && out == base + written'
      ensures e != Ok ==> e == Multi(vs, start, order).outcome && written' == Multi(vs, start, order).bytes
      ensures e == Ok ==> Multi(vs, start, order) == Then(written', Multi(vs[i + 1..], pos, order))
    {
      ghost var before, first := pos, Enc(vs[i], 0, pos, order);
      e := Encode(vs[i]);
      if first.outcome == InvalidType {
        MultiStop(vs, i, start, before, order, written, first);
      } else {
        MultiNext(vs, i, start, before, order, written, first, pos);
      }
      Assoc(base, written, first.bytes);
      written' := written + first.bytes;
    }

    /** encode(v, depth): align to v's type, then write v. */
    method EncodeValue(v: Value, depth: nat) returns (r: Outcome)
      requires Valid()
      modifies this
      ensures Valid()
      ensures out == old(out) + Enc(v, depth, old(pos), order).bytes
      ensures r == Enc(v, depth, old(pos), order).outcome
      decreases CallRank(v), v, 5
    {
      ghost var start, before := pos, out;
      Align(Alignment(TypeOf(v)));
      ghost var pad := Padding(start, Alignment(TypeOf(v)));
      r := EncodeAligned(v, depth);
      Assoc(before, pad, Body(v, depth, start + |pad|, order).bytes);
    }

    /** The switch of encode, entered once the stream is aligned for v. Each
        case is a method with this same contract. */
    method EncodeAligned(v: Value, depth: nat) returns (r: Outcome)
      requires Valid() && AlignedTo(pos, Alignment(TypeOf(v)))
      modifies this
      ensures Valid()
      ensures out == old(out) + Body(v, depth, old(pos), order).bytes
      ensures r == Body(v, depth, old(pos), order).outcome
      decreases CallRank(v), v, 4
    {
      match v
      case Byte(_) =>
        r := EncodeByte(v, depth);
      case Bool(_) =>
        r := EncodeBool(v, depth);
      case Int16(_) | UInt16(_) | Int32(_) | UInt32(_) | Int64(_) | UInt64(_) | Double(_) =>
        r := EncodeFixed(v, depth);
      case Str(_) =>
        r := EncodeString(v, depth);
      case ObjPath(_) =>
        r := EncodeString(v, depth);
      case Ptr(_) =>
        r := EncodePointer(v, depth);
      case Array(_, _) =>
        r := EncodeArray(v, depth);
      case Sig(_) =>
        r := EncodeStructKind(v, depth);
      case Variant(_, _) =>
        r := EncodeStructKind(v, depth);
      case Struct(_) =>
        r := EncodeStructKind(v, depth);
      case Dict(_, _) =>
        r := EncodeMap(v, depth);
      case Unsupported =>
        r := EncodeInvalid(v, depth);
    }

    /** The byte case: one byte, written as is. */
    method EncodeByte(v: Value, depth: nat) returns (r: Outcome)
      requires Valid() && v.Byte?
      modifies this
      ensures Valid()
      ensures out == old(out) + Body(v, depth, old(pos), order).bytes
      ensures r == Body(v, depth, old(pos), order).outcome
    {
      out := out + [v.b];
      pos := pos + 1;
      r := Ok;
    }

    /** The bool case: true and false travel as the UInt32 values 1 and 0. */
    method EncodeBool(v: Value, depth: nat) returns (r: Outcome)
      requires Valid() && v.Bool? && AlignedTo(pos, 4)
      modifies this
      ensures Valid()
      ensures out == old(out) + Body(v, depth, old(pos), order).bytes
      ensures r == Body(v, depth, old(pos), order).outcome
      decreases CallRank(v), v, 3
    {
      var u := UInt32(if v.bit then 1 else 0);
      assert Body(v, depth, pos, order) == Body(u, depth, pos, order);
      EncAligned(u, depth, pos, order);
      r := EncodeValue(u, depth);
    }

    /** The fixed-width numbers: binwrite, then pos moves past them. */
    method EncodeFixed(v: Value, depth: nat) returns (r: Outcome)
      requires Valid() && IsFixed(v) && !v.Bool?
      modifies this
      ensures Valid()
      ensures out == old(out) + Body(v, depth, old(pos), order).bytes
      ensures r == Body(v, depth, old(pos), order).outcome
    {
      BinWrite(Bits(v), Width(v));
      pos := pos + Width(v);
      r := Ok;
    }

    /** The pointer case: the value pointed to, at the same depth. */
    method EncodePointer(v: Value, depth: nat) returns (r: Outcome)
      requires Valid() && v.Ptr?
      modifies this
      ensures Valid()
      ensures out == old(out) + Body(v, depth, old(pos), order).bytes
      ensures r == Body(v, depth, old(pos), order).outcome
      decreases CallRank(v), v, 3
    {
      r := EncodeValue(v.target, depth);
    }

    /** The default case: a type with no wire form; nothing is written. */
    method EncodeInvalid(v: Value, depth: nat) returns (r: Outcome)
      requires Valid() && v.Unsupported?
      ensures out == old(out) + Body(v, depth, old(pos), order).bytes
      ensures r == Body(v, depth, old(pos), order).outcome
    {
      assert out + [] == out;
      r := InvalidType;
    }

    /** The string case: the UInt32 length, then the bytes and a NUL. */
    method EncodeString(v: Value, depth: nat) returns (r: Outcome)
      requires Valid() && (v.Str? || v.ObjPath?) && AlignedTo(pos, 4)
      modifies this
      ensures Valid()
      ensures out == old(out) + Body(v, depth, old(pos), order).bytes
      ensures r == Body(v, depth, old(pos), order).outcome
      decreases CallRank(v), v, 2
    {
      var s := if v.Str? then v.s else v.path;
      ghost var length := FixedBytes(|s| % 0x1_0000_0000, 4, order);
      EncAligned(UInt32(|s| % 0x1_0000_0000), depth, pos, order);
      r := EncodeValue(UInt32(|s| % 0x1_0000_0000), depth);
      Assoc(old(out) + length, s, [0]);
      out := out + (s + [0]);
      pos := pos + |s| + 1;
      Assoc(old(out), length + s, [0]);
      Assoc(old(out), length, s);
    }

    /** The slice and array case: the elements go to a scratch encoder at
        depth+1; its bytes are then framed into this stream. */
    method EncodeArray(v: Value, depth: nat) returns (r: Outcome)
      requires Valid() && v.Array? && AlignedTo(pos, 4)
      modifies this
      ensures Valid()
      ensures out == old(out) + Body(v, depth, old(pos), order).bytes
      ensures r == Body(v, depth, old(pos), order).outcome
      decreases CallRank(v), v, 2
    {
      if depth >= MaxDepth {
        assert out + [] == out;
        r := DepthError;
        return;
      }
      var body;
      body, r := ScratchElements(v, depth + 1, order);
      if r != Ok {
        assert out + [] == out;
        return;
      }
      r := WriteFramed(v, body, Alignment(v.elemType), depth);
    }

    /** The map case: depth and key checks, then the entries go to a scratch
        encoder at depth+2; its bytes are framed into this stream at 8. */
    method EncodeMap(v: Value, depth: nat) returns (r: Outcome)
      requires Valid() && v.Dict? && AlignedTo(pos, 4)
      modifies this
      ensures Valid()
      ensures out == old(out) + Body(v, depth, old(pos), order).bytes
      ensures r == Body(v, depth, old(pos), order).outcome
      decreases CallRank(v), v, 3
    {
      if depth >= MaxDepth - 1 {
        assert out + [] == out;
        r := DepthError;
        return;
      }
      if !IsKeyType(v.keyType) {
        assert out + [] == out;
        r := InvalidType;
        return;
      }
      var body;
      body, r := ScratchEntries(v, depth + 2, order);
      if r != Ok {
        assert out + [] == out;
        return;
      }
      r := WriteFramed(v, body, 8, depth);
    }

    /** The tail of the array and map cases: the UInt32 length of the scratch
        bytes, padding to the body alignment, and the bytes themselves. */
    method WriteFramed(ghost v: Value, body: seq<byte>, bodyAlign: nat, depth: nat) returns (r: Outcome)
      requires Valid() && IsAlignment(bodyAlign) && AlignedTo(pos, 4)
      requires CallRank(v) == 2
      modifies this
      ensures Valid() && r == Ok
      ensures out == old(out) + Framed(body, old(pos), bodyAlign, order)
      decreases CallRank(v), v, 1
    {
      var length := |body|;
      ghost var prefix := FixedBytes(length % 0x1_0000_0000, 4, order);
      ghost var pad := Padding(old(pos) + 4, bodyAlign);
      EncAligned(UInt32(length % 0x1_0000_0000), depth, pos, order);
      r := EncodeValue(UInt32(length % 0x1_0000_0000), depth);
      Align(bodyAlign);
      Assoc(old(out), prefix, pad);
      out := out + body;
      pos := pos + length;
      Assoc(old(out), prefix + pad, body);
    }

    /** The array elements encoded by a fresh encoder that starts at 0. */
    static method ScratchElements(v: Value, depth: nat, order: ByteOrder) returns (body: seq<byte>, r: Outcome)
      requires v.Array?
      ensures r == Elements(v.elems, depth, 0, order).outcome
      ensures r == Ok ==> body == Elements(v.elems, depth, 0, order).bytes
      decreases CallRank(v), v, 1
    {
      body := [];
      var elems := v.elems;
      var buf := new Encoder(order);
      var i := 0;
      while i < |elems|
        invariant 0 <= i <= |elems|
        invariant fresh(buf) && buf.Valid() && buf.order == order
        invariant Elements(elems, depth, 0, order)
               == Then(buf.out, Elements(elems[i..], depth, buf.pos, order))
      {
        ghost var before, written, first := buf.pos, buf.out, Enc(elems[i], depth, buf.pos, order);
        var e := buf.EncodeValue(elems[i], depth);
        ElementsNext(elems, i, depth, 0, before, order, written, first, buf.pos);
        if e != Ok {
          r := e;
          return;
        }
        i := i + 1;
      }
      assert elems[i..] == [] && buf.out + [] == buf.out;
      body, r := buf.out, Ok;
    }

    /** The map entries, each aligned to 8, encoded by a fresh encoder that
        starts at 0. */
    static method ScratchEntries(v: Value, depth: nat, order: ByteOrder) returns (body: seq<byte>, r: Outcome)
      requires v.Dict?
      ensures r == Entries(v.entries, depth, 0, order).outcome
      ensures r == Ok ==> body == Entries(v.entries, depth, 0, order).bytes
      decreases CallRank(v), v, 2
    {
      body := [];
      var entries := v.entries;
      var buf := new Encoder(order);
      var i := 0;
      while i < |entries|
        invariant 0 <= i <= |entries|
        invariant fresh(buf) && buf.Valid() && buf.order == order
        invariant Entries(entries, depth, 0, order)
               == Then(buf.out, Entries(entries[i..], depth, buf.pos, order))
      {
        ghost var before, written, first := buf.pos, buf.out, EntryBytes(entries[i], depth, buf.pos, order);
        assert entries[i] < v;
        var e := buf.EncodeEntry(v, entries[i], depth);
        EntriesNext(entries, i, depth, 0, before, order, written, first, buf.pos);
        if e != Ok {
          r := e;
          return;
        }
        i := i + 1;
      }
      assert entries[i..] == [] && buf.out + [] == buf.out;
      body, r := buf.out, Ok;
    }

    /** One map entry: align to 8, then the key and the value. */
    method EncodeEntry(ghost v: Value, e: Entry, depth: nat) returns (r: Outcome)
      requires Valid() && v.Dict? && e in v.entries
      modifies this
      ensures Valid()
      ensures out == old(out) + EntryBytes(e, depth, old(pos), order).bytes
      ensures r == EntryBytes(e, depth, old(pos), order).outcome
      decreases CallRank(v), v, 1
    {
      ghost var start, before := pos, out;
      Align(8);
      ghost var pad := Padding(start, 8);
      r := EncodeKeyValue(v, e, depth);
      Assoc(before, pad, KeyValue(e, depth, start + |pad|, order).bytes);
    }

    /** The key of an entry, then, unless the key failed, its value. */
    method EncodeKeyValue(ghost v: Value, e: Entry, depth: nat) returns (r: Outcome)
      requires Valid() && v.Dict? && e in v.entries
      modifies this
      ensures Valid()
      ensures out == old(out) + KeyValue(e, depth, old(pos), order).bytes
      ensures r == KeyValue(e, depth, old(pos), order).outcome
      decreases CallRank(v), v, 0
    {
      ghost var key := Enc(e.key, depth, pos, order);
      r := EncodeValue(e.key, depth);
      if r != Ok {
        return;
      }
      ghost var val := Enc(e.val, depth, pos, order);
      r := EncodeValue(e.val, depth);
      KeyThenValue(e, depth, old(pos), order, key, val);
      Assoc(old(out), key.bytes, val.bytes);
    }

    /** The struct case: the depth check (from which a Signature is exempt),
        then Signature, Variant or a plain struct. */
    method EncodeStructKind(v: Value, depth: nat) returns (r: Outcome)
      requires Valid() && (v.Sig? || v.Variant? || v.Struct?)
      requires AlignedTo(pos, Alignment(TypeOf(v)))
      modifies this
      ensures Valid()
      ensures out == old(out) + Body(v, depth, old(pos), order).bytes
      ensures r == Body(v, depth, old(pos), order).outcome
      decreases CallRank(v), v, 2
    {
      if depth >= MaxDepth && !v.Sig? {
        assert out + [] == out;
        r := DepthError;
        return;
      }
      match v
      case Sig(_) =>
        r := EncodeSignature(v, depth);
      case Variant(_, _) =>
        r := EncodeVariant(v, depth);
      case Struct(_) =>
        r := EncodeFields(v, depth + 1);
    }

    /** A signature: its length as a Byte, then the bytes and a NUL. */
    method EncodeSignature(v: Value, depth: nat) returns (r: Outcome)
      requires Valid() && v.Sig?
      modifies this
      ensures Valid()
      ensures out == old(out) + Body(v, depth, old(pos), order).bytes
      ensures r == Body(v, depth, old(pos), order).outcome
      decreases CallRank(v), v, 1
    {
      var s := v.sig;
      EncAligned(Byte(|s| % 0x100), depth + 1, pos, order);
      r := EncodeValue(Byte(|s| % 0x100), depth + 1);
      Assoc(old(out) + [|s| % 0x100], s, [0]);
      out := out + (s + [0]);
      pos := pos + |s| + 1;
      Assoc(old(out), [|s| % 0x100] + s, [0]);
      Assoc(old(out), [|s| % 0x100], s);
    }

    /** A variant below the depth limit: its Signature, then the value, both
        one level deeper. */
    method EncodeVariant(v: Value, depth: nat) returns (r: Outcome)
      requires Valid() && v.Variant? && depth < MaxDepth
      modifies this
      ensures Valid()
      ensures out == old(out) + Body(v, depth, old(pos), order).bytes
      ensures r == Body(v, depth, old(pos), order).outcome
      decreases CallRank(v), v, 1
    {
      EncAligned(Sig(v.vsig), depth + 1, pos, order);
      r := EncodeValue(Sig(v.vsig), depth + 1);
      ghost var sigEnd := pos;
      r := EncodeValue(v.inner, depth + 1);
      Assoc(old(out), SignatureBytes(v.vsig), Enc(v.inner, depth + 1, sigEnd, order).bytes);
    }

    /** The loop over a struct's fields, in declaration order, skipping the
        fields marked to be skipped. */
    method EncodeFields(v: Value, depth: nat) returns (r: Outcome)
      requires Valid() && v.Struct?
      modifies this
      ensures Valid()
      ensures out == old(out) + Fields(v.fields, depth, old(pos), order).bytes
      ensures r == Fields(v.fields, depth, old(pos), order).outcome
      decreases CallRank(v), v, 1
    {
      var fields := v.fields;
      ghost var written: seq<byte> := [];
      r := Ok;
      var i := 0;
      while i < |fields|
        invariant 0 <= i <= |fields| && Valid() && r == Ok
        invariant out == old(out) + written
        invariant Fields(fields, depth, old(pos), order)
               == Then(written, Fields(fields[i..], depth, pos, order))
      {
        ghost var before, first := pos, FieldBytes(fields[i], depth, pos, order);
        r := EncodeField(v, fields[i], depth);
        FieldsNext(fields, i, depth, old(pos), before, order, written, first, pos);
        Assoc(old(out), written, first.bytes);
        written := written + first.bytes;
        if r != Ok {
          return;
        }
        i := i + 1;
      }
      assert fields[i..] == [] && written + [] == written;
    }

    /** One field: encoded unless it is marked to be skipped. */
    method EncodeField(ghost v: Value, f: Field, depth: nat) returns (r: Outcome)
      requires Valid() && v.Struct? && f in v.fields
      modifies this
      ensures Valid()
      ensures out == old(out) + FieldBytes(f, depth, old(pos), order).bytes
      ensures r == FieldBytes(f, depth, old(pos), order).outcome
      decreases CallRank(v), v, 0
    {
      if f.skip {
        r := Ok;
        assert out + [] == out;
      } else {
        r := EncodeValue(f.value, depth);
      }
    }
  }
}
