/** The bytes the D-Bus marshaller appends for a value, as a function of the
    value, the container nesting depth, the encoder's position and its byte
    order. Positions are counted from the origin of the encoder doing the
    writing: a top-level encoder counts from its creation, and the scratch
    encoder of an array or dictionary body counts from 0. */
module WireFormat {
  import opened WireTypes

  /** How an encode call ends: normally, at the container depth limit (a
      FormatError), or on a type with no wire form (an invalidTypeError). */
  datatype Outcome = Ok | DepthError | InvalidType

  /** The bytes appended to the stream, and how the call ended. On a failure
      the bytes are those written before the failure, which stay written. */
  datatype Written = Written(bytes: seq<byte>, outcome: Outcome)

  /** Containers at this depth or deeper are refused. */
  const MaxDepth: nat := 64

  /** The alignments the encoder uses: powers of two up to 8. */
  predicate IsAlignment(n: nat) {
    n == 1 || n == 2 || n == 4 || n == 8
  }

  /** p is a multiple of the alignment n, stated with constant moduli only. */
  predicate AlignedTo(p: nat, n: nat) {
    n == 1 || (n == 2 && p % 2 == 0) || (n == 4 && p % 4 == 0) || (n == 8 && p % 8 == 0)
  }

  /** The position `align(n)` moves to: the least multiple of n at or above pos. */
  function AlignUp(pos: nat, n: nat): (r: nat)
    requires IsAlignment(n)
    ensures AlignedTo(r, n) && pos <= r < pos + n
    ensures AlignedTo(pos, n) ==> r == pos
  {
    RoundUp(pos);
    if n == 1 then pos
    else if n == 2 then pos + pos % 2
    else if n == 4 then (if pos % 4 == 0 then pos else pos + (4 - pos % 4))
    else if pos % 8 == 0 then pos else pos + (8 - pos % 8)
  }

  /** Adding what is missing to the next multiple of 2, 4 or 8 reaches it. */
  lemma {:induction false} RoundUp(pos: nat)
    ensures (pos + pos % 2) % 2 == 0
    ensures pos % 4 != 0 ==> (pos + (4 - pos % 4)) % 4 == 0
    ensures pos % 8 != 0 ==> (pos + (8 - pos % 8)) % 8 == 0
  {
    RoundUpTo(pos, 2);
    RoundUpTo(pos, 4);
    RoundUpTo(pos, 8);
  }

  lemma {:induction false} RoundUpTo(pos: nat, n: nat)
    requires n == 2 || n == 4 || n == 8
    ensures pos % n != 0 ==> (pos + (n - pos % n)) % n == 0
    ensures n == 2 ==> (pos + pos % 2) % 2 == 0
  {
    var q, r := pos / n, pos % n;
    assert pos == n * q + r;
    if r != 0 {
      assert pos + (n - r) == n * (q + 1);
    }
  }

  /** The zero bytes `align(n)` writes at position pos. */
  function Padding(pos: nat, n: nat): (r: seq<byte>)
    requires IsAlignment(n)
    ensures pos + |r| == AlignUp(pos, n)
  {
    Zeros(AlignUp(pos, n) - pos)
  }

  /** Prepends bytes written before a nested call to what that call wrote. */
  function Then(prefix: seq<byte>, w: Written): Written {
    Written(prefix + w.bytes, w.outcome)
  }

  lemma {:induction false} Assoc(a: seq<byte>, b: seq<byte>, c: seq<byte>)
    ensures (a + b) + c == a + (b + c)
  {
  }

  /** At a position already aligned for v, encode writes no padding. */
  lemma {:induction false} EncAligned(v: Value, depth: nat, pos: nat, order: ByteOrder)
    requires AlignedTo(pos, Alignment(TypeOf(v)))
    ensures Enc(v, depth, pos, order) == Body(v, depth, pos, order)
  {
    assert Padding(pos, Alignment(TypeOf(v))) == [];
    assert [] + Body(v, depth, pos, order).bytes == Body(v, depth, pos, order).bytes;
  }

  /** Bytes written in two steps before a call read as one prefix. */
  lemma {:induction false} ThenThen(a: seq<byte>, b: seq<byte>, w: Written)
    ensures Then(a, Then(b, w)) == Then(a + b, w)
  {
    assert a + (b + w.bytes) == (a + b) + w.bytes;
  }

  /** A string or object path after its alignment: UInt32 byte length (the
      NUL not counted, the length cut to 32 bits), the bytes, a NUL. */
  function StringBytes(s: seq<byte>, order: ByteOrder): seq<byte> {
    FixedBytes(|s| % 0x1_0000_0000, 4, order) + s + [0]
  }

  /** A signature: one length byte (the length cut to 8 bits), the bytes, a NUL. */
  function SignatureBytes(s: seq<byte>): seq<byte> {
    [|s| % 0x100] + s + [0]
  }

  /** An array or dictionary body copied from a scratch encoder into a stream
      at 4-aligned pos: the UInt32 body length, padding to the body's
      alignment, then the scratch bytes verbatim. */
  function Framed(body: seq<byte>, pos: nat, bodyAlign: nat, order: ByteOrder): seq<byte>
    requires IsAlignment(bodyAlign)
  {
    FixedBytes(|body| % 0x1_0000_0000, 4, order) + Padding(pos + 4, bodyAlign) + body
  }

  /** encode(v, depth) on an encoder at pos: first align to v's type, then
      write v's own bytes. */
  function Enc(v: Value, depth: nat, pos: nat, order: ByteOrder): Written
    decreases v, 1
  {
    var start := AlignUp(pos, Alignment(TypeOf(v)));
    Then(Padding(pos, Alignment(TypeOf(v))), Body(v, depth, start, order))
  }

  /** What encode writes for v once the stream stands at its alignment. */
  function Body(v: Value, depth: nat, pos: nat, order: ByteOrder): Written
    decreases v, 0
  {
    match v
    case Variant(s, inner) => VariantBody(s, inner, depth, pos, order)
    case Array(et, elems) => ArrayBody(et, elems, depth, pos, order)
    case Struct(fields) => StructBody(fields, depth, pos, order)
    case Dict(kt, entries) => DictBody(kt, entries, depth, pos, order)
    case Ptr(target) => Enc(target, depth, pos, order)
    case Unsupported => Written([], InvalidType)
    case Byte(b) => Written([b], Ok)
    case Str(s) => Written(StringBytes(s, order), Ok)
    case ObjPath(s) => Written(StringBytes(s, order), Ok)
    case Sig(s) => Written(SignatureBytes(s), Ok)
    case _ => Written(FixedBytes(Bits(v), Width(v), order), Ok)
  }

  /** A variant below the depth limit: its signature, then the boxed value
      one level deeper, at that value's own alignment. */
  function VariantBody(s: seq<byte>, inner: Value, depth: nat, pos: nat, order: ByteOrder): Written
    decreases inner, 2
  {
    if depth >= MaxDepth then Written([], DepthError)
    else Then(SignatureBytes(s), Enc(inner, depth + 1, pos + |SignatureBytes(s)|, order))
  }

  /** An array below the depth limit: the elements go to a scratch stream
      that starts at 0, one level deeper; if they all encode, the scratch
      bytes are framed into the stream, padded to the element alignment. */
  function ArrayBody(et: TypeTag, elems: seq<Value>, depth: nat, pos: nat, order: ByteOrder): Written
    decreases elems, 1
  {
    if depth >= MaxDepth then Written([], DepthError)
    else
      var body := Elements(elems, depth + 1, 0, order);
      if body.outcome != Ok then Written([], body.outcome)
      else Written(Framed(body.bytes, pos, Alignment(et), order), Ok)
  }

  /** A struct below the depth limit: its kept fields one level deeper, with
      no length prefix. */
  function StructBody(fields: seq<Field>, depth: nat, pos: nat, order: ByteOrder): Written
    decreases fields, 2
  {
    if depth >= MaxDepth then Written([], DepthError)
    else Fields(fields, depth + 1, pos, order)
  }

  /** A dictionary: one level less of headroom than an array, since each
      entry is an implied struct; the key type must be basic; the entries go
      to a scratch stream at depth+2 and are framed at alignment 8. */
  function DictBody(kt: TypeTag, entries: seq<Entry>, depth: nat, pos: nat, order: ByteOrder): Written
    decreases entries, 2
  {
    if depth >= MaxDepth - 1 then Written([], DepthError)
    else if !IsKeyType(kt) then Written([], InvalidType)
    else
      var body := Entries(entries, depth + 2, 0, order);
      if body.outcome != Ok then Written([], body.outcome)
      else Written(Framed(body.bytes, pos, 8, order), Ok)
  }

  /** Array elements encoded one after another, stopping at the first failure. */
  function Elements(elems: seq<Value>, depth: nat, pos: nat, order: ByteOrder): Written
    decreases elems, 0
  {
    if elems == [] then Written([], Ok)
    else
      var first := Enc(elems[0], depth, pos, order);
      if first.outcome != Ok then first
      else Then(first.bytes, Elements(elems[1..], depth, pos + |first.bytes|, order))
  }

  /** Struct fields in declaration order, skipped fields left out. */
  function Fields(fields: seq<Field>, depth: nat, pos: nat, order: ByteOrder): Written
    decreases fields, 1
  {
    if fields == [] then Written([], Ok)
    else
      var first := FieldBytes(fields[0], depth, pos, order);
      if first.outcome != Ok then first
      else Then(first.bytes, Fields(fields[1..], depth, pos + |first.bytes|, order))
  }

  function FieldBytes(f: Field, depth: nat, pos: nat, order: ByteOrder): Written
    decreases f, 0
  {
    if f.skip then Written([], Ok) else Enc(f.value, depth, pos, order)
  }

  /** Dictionary entries, each aligned to 8 and written as key then value. */
  function Entries(entries: seq<Entry>, depth: nat, pos: nat, order: ByteOrder): Written
    decreases entries, 1
  {
    if entries == [] then Written([], Ok)
    else
      var first := EntryBytes(entries[0], depth, pos, order);
      if first.outcome != Ok then first
      else Then(first.bytes, Entries(entries[1..], depth, pos + |first.bytes|, order))
  }

  function EntryBytes(e: Entry, depth: nat, pos: nat, order: ByteOrder): Written
    decreases e, 1
  {
    Then(Padding(pos, 8), KeyValue(e, depth, AlignUp(pos, 8), order))
  }

  /** An entry once aligned: the key, then, if it encoded, the value. */
  function KeyValue(e: Entry, depth: nat, pos: nat, order: ByteOrder): Written
    decreases e, 0
  {
    var key := Enc(e.key, depth, pos, order);
    if key.outcome != Ok then key
    else Then(key.bytes, Enc(e.val, depth, pos + |key.bytes|, order))
  }

  /** A key that encodes is followed by the value, from where the key ended. */
  lemma {:induction false} KeyThenValue(e: Entry, depth: nat, pos: nat, order: ByteOrder, key: Written, val: Written)
    requires key == Enc(e.key, depth, pos, order) && key.outcome == Ok
    requires val == Enc(e.val, depth, pos + |key.bytes|, order)
    ensures KeyValue(e, depth, pos, order) == Then(key.bytes, val)
  {
  }

  /** A non-empty run of entries: the first, then, if it succeeds, the rest. */
  lemma {:induction false} EntriesCons(entries: seq<Entry>, depth: nat, pos: nat, order: ByteOrder,
                                       first: Written, next: nat)
    requires entries != [] && first == EntryBytes(entries[0], depth, pos, order) && next == pos + |first.bytes|
    ensures Entries(entries, depth, pos, order)
         == if first.outcome != Ok then first else Then(first.bytes, Entries(entries[1..], depth, next, order))
  {
  }

  /** A non-empty run of elements: the first, then, if it succeeds, the rest. */
  lemma {:induction false} ElementsCons(elems: seq<Value>, depth: nat, pos: nat, order: ByteOrder,
                                        first: Written, next: nat)
    requires elems != [] && first == Enc(elems[0], depth, pos, order) && next == pos + |first.bytes|
    ensures Elements(elems, depth, pos, order)
         == if first.outcome != Ok then first else Then(first.bytes, Elements(elems[1..], depth, next, order))
  {
  }

  /** A non-empty run of fields: the first, then, if it succeeds, the rest. */
  lemma {:induction false} FieldsCons(fields: seq<Field>, depth: nat, pos: nat, order: ByteOrder,
                                      first: Written, next: nat)
    requires fields != [] && first == FieldBytes(fields[0], depth, pos, order) && next == pos + |first.bytes|
    ensures Fields(fields, depth, pos, order)
         == if first.outcome != Ok then first else Then(first.bytes, Fields(fields[1..], depth, next, order))
  {
  }

  /** What the top-level Encode lets its caller see of an inner outcome: its
      deferred recover declares a fresh err, so a depth failure is swallowed
      and only an invalid type (re-panicked) escapes. */
  function Surfaced(o: Outcome): (r: Outcome)
    ensures r != DepthError
    ensures r == InvalidType <==> o == InvalidType
  {
    if o == InvalidType then InvalidType else Ok
  }

  /** EncodeMulti: each value encoded at depth 0 where the last one ended;
      only an invalid type stops the run. */
  function Multi(vs: seq<Value>, pos: nat, order: ByteOrder): Written {
    if vs == [] then Written([], Ok)
    else
      var first := Enc(vs[0], 0, pos, order);
      if first.outcome == InvalidType then first
      else Then(first.bytes, Multi(vs[1..], pos + |first.bytes|, order))
  }

  // ---------------------------------------------------------------------------
  // One step of the loops over elements, fields, entries and values: with the
  // bytes written so far in front, the rest of the run is the next item
  // followed, if it succeeds, by the run over what remains.

  lemma {:induction false} ElementsNext(elems: seq<Value>, i: nat, depth: nat, start: nat, pos: nat, order: ByteOrder,
                      written: seq<byte>, first: Written, next: nat)
    requires i < |elems| && first == Enc(elems[i], depth, pos, order) && next == pos + |first.bytes|
    requires Elements(elems, depth, start, order) == Then(written, Elements(elems[i..], depth, pos, order))
    ensures first.outcome != Ok ==> Elements(elems, depth, start, order) == Then(written, first)
    ensures first.outcome == Ok ==>
      (Elements(elems, depth, start, order) == Then(written + first.bytes, Elements(elems[i + 1..], depth, next, order)))
  {
    assert elems[i..][0] == elems[i] && elems[i..][1..] == elems[i + 1..];
    if first.outcome == Ok {
      ThenThen(written, first.bytes, Elements(elems[i + 1..], depth, next, order));
    }
  }

  lemma {:induction false} FieldsNext(fields: seq<Field>, i: nat, depth: nat, start: nat, pos: nat, order: ByteOrder,
                    written: seq<byte>, first: Written, next: nat)
    requires i < |fields| && first == FieldBytes(fields[i], depth, pos, order) && next == pos + |first.bytes|
    requires Fields(fields, depth, start, order) == Then(written, Fields(fields[i..], depth, pos, order))
    ensures first.outcome != Ok ==> Fields(fields, depth, start, order) == Then(written, first)
    ensures first.outcome == Ok ==>
      (Fields(fields, depth, start, order) == Then(written + first.bytes, Fields(fields[i + 1..], depth, next, order)))
  {
    assert fields[i..][0] == fields[i] && fields[i..][1..] == fields[i + 1..];
    if first.outcome == Ok {
      ThenThen(written, first.bytes, Fields(fields[i + 1..], depth, next, order));
    }
  }

  lemma {:induction false} EntriesNext(entries: seq<Entry>, i: nat, depth: nat, start: nat, pos: nat, order: ByteOrder,
                     written: seq<byte>, first: Written, next: nat)
    requires i < |entries| && first == EntryBytes(entries[i], depth, pos, order) && next == pos + |first.bytes|
    requires Entries(entries, depth, start, order) == Then(written, Entries(entries[i..], depth, pos, order))
    ensures first.outcome != Ok ==> Entries(entries, depth, start, order) == Then(written, first)
    ensures first.outcome == Ok ==>
      (Entries(entries, depth, start, order) == Then(written + first.bytes, Entries(entries[i + 1..], depth, next, order)))
  {
    assert entries[i..][0] == entries[i] && entries[i..][1..] == entries[i + 1..];
    if first.outcome == Ok {
      ThenThen(written, first.bytes, Entries(entries[i + 1..], depth, next, order));
    }
  }

  lemma {:induction false} MultiStop(vs: seq<Value>, i: nat, start: nat, pos: nat, order: ByteOrder,
                   written: seq<byte>, first: Written)
    requires i < |vs| && first == Enc(vs[i], 0, pos, order) && first.outcome == InvalidType
    requires Multi(vs, start, order) == Then(written, Multi(vs[i..], pos, order))
    ensures Multi(vs, start, order) == Then(written, first)
  {
    var rest := vs[i..];
    assert rest[0] == vs[i];
  }

  lemma {:induction false} MultiNext(vs: seq<Value>, i: nat, start: nat, pos: nat, order: ByteOrder,
                   written: seq<byte>, first: Written, next: nat)
    requires i < |vs| && first == Enc(vs[i], 0, pos, order) && next == pos + |first.bytes|
    requires first.outcome != InvalidType
    requires Multi(vs, start, order) == Then(written, Multi(vs[i..], pos, order))
    ensures Multi(vs, start, order) == Then(written + first.bytes, Multi(vs[i + 1..], next, order))
  {
    MultiUnfold(vs[i..], pos, order, first, next);
    assert vs[i..][1..] == vs[i + 1..];
    ThenThen(written, first.bytes, Multi(vs[i + 1..], next, order));
  }

  lemma {:induction false} MultiUnfold(vs: seq<Value>, pos: nat, order: ByteOrder, first: Written, next: nat)
    requires vs != [] && first == Enc(vs[0], 0, pos, order) && next == pos + |first.bytes|
    requires first.outcome != InvalidType
    ensures Multi(vs, pos, order) == Then(first.bytes, Multi(vs[1..], next, order))
  {
  }


}
