# D-Bus marshaller, modelled in Dafny

This project models the D-Bus marshaller of `encoder.go`. The marshaller turns a
tree of typed values into bytes in the D-Bus wire format ("Marshaling (Wire
Format)" in the D-Bus Specification). It writes:

- fixed-width numbers in the encoder's byte order, each padded to its own width;
- strings and object paths as a UInt32 length, the bytes and a NUL;
- signatures as a one-byte length, the bytes and a NUL;
- variants as their signature followed by the boxed value;
- structs as their kept fields in order, padded to 8;
- arrays and dictionaries as a UInt32 byte length, padding and a body. The
  body is first encoded into a scratch encoder that starts at position 0.

Containers are refused beyond a nesting depth, and values of types with no wire
form are refused with an invalid-type error.

The model has four modules:

- `WireTypes` (`wire_types.dfy`): the closed `Value` datatype, the type tags
  with their alignment and the dictionary key check, and the byte layout of
  fixed-width numbers in either byte order, with its decoder.
- `WireFormat` (`wire_format.dfy`): a pure specification. `Enc(v, depth,
  pos, order)` gives the bytes `encode` appends and how the call ends: `Ok`,
  `DepthError` (a `FormatError` panic) or `InvalidType` (an `invalidTypeError`
  panic). On a failure the bytes are those written before the panic. Go
  cannot take them back.
- `DBusEncoder` (`encoder.dfy`): `class Encoder`, with the fields `out`,
  `order` and `pos` updated in place. `Align`, `BinWrite`, `Encode`,
  `EncodeMulti` and one method per case of the `encode` switch are included.
  Arrays, struct fields and dictionary entries use loops, and arrays and
  dictionaries use a fresh scratch `Encoder`. Every method is proved to
  append exactly the bytes `WireFormat` specifies. Every method except
  `BinWrite` also keeps `pos == |out|`; `BinWrite`, like Go's `binwrite`,
  leaves `pos` unchanged and its callers advance it.
- `WireFormatFacts` (`wire_format_facts.dfy`): what the format promises,
  proved about the specification. It covers:
  - the layout of each kind of value, with the round trip of fixed-width
    numbers and length prefixes;
  - the depth limit and the top-level error handling;
  - where scratch bodies land in the stream.

Two behaviours of the code are modelled as written:

- `Encode`'s deferred `recover` declares a fresh `err`, so the named result is
  never set. A depth failure is therefore swallowed, and `Encode` reports
  success. Only an invalid type is raised again. `Surfaced` captures this, and
  so does the contract of `Encoder.Encode`. `DepthLimit` proves that 65 nested
  arrays fail inside `encode`, yet `Encode` reports them as a success.
- The scratch encoder of an array or dictionary counts positions from 0. Its
  bytes are copied in after the length and the padding to the element
  alignment. Every alignment divides 8, and a body that lands at a multiple
  of 8 is exactly what in-place encoding would write (`EncShift`,
  `DictBodyInPlace`, `ArrayBodyInPlace`). An array whose element alignment is
  below 8 can land at 4 mod 8, though. An array of arrays of INT64 written
  from 0 puts its INT64 at stream offset 12 (`NestedBodyMisaligned`), and
  in-place encoding would differ (`NestedInPlace`, `ScratchNotInPlace`).

Depth limits and error reporting, as the code has them:

- Arrays, structs and variants are refused at depth 64 or more
  (`encoder.go:156`, `encoder.go:173`), so 64 nested arrays encode and 65 fail
  (`NestDepth`, `DepthLimit`).
- A dictionary is refused at depth 63 or more (`encoder.go:203`), one level
  earlier, since each entry is an implied struct.
- A dictionary's key type is checked once, before any entry
  (`encoder.go:206-207`).
- `Encode` swallows a depth failure (`encoder.go:80-91`), as described above.

## Model

| member | source | states |
|---|---|---|
| DBusEncoder.Encoder.constructor | encoder.go:51-56 | A new encoder has written nothing, stands at position 0 and keeps the byte order it was given. |
| DBusEncoder.Encoder.Align | encoder.go:59-68 | Appends exactly the zero bytes up to the least multiple of n at or after pos. The new position is aligned to n, and nothing is written when pos is already aligned. |
| DBusEncoder.Encoder.BinWrite | encoder.go:70-75 | Appends the w bytes of x in the encoder's byte order and leaves pos to the caller. |
| DBusEncoder.Encoder.Encode | encoder.go:77-92 | Appends what encode at depth 0 writes, even when it fails. The result is an invalid type exactly when encode failed on one; a depth failure reads as success. |
| DBusEncoder.Encoder.EncodeMulti | encoder.go:94-102 | Encodes the values one after another, each where the last ended. It stops only at the first value that fails with an invalid type, and its result is that failure or Ok. |
| DBusEncoder.Encoder.EncodeNext | encoder.go:96-100 | One round of the EncodeMulti loop: either the run stops with everything it will write, or the rest of the run follows from the new position. |
| DBusEncoder.Encoder.EncodeValue | encoder.go:106-107 | encode(v, depth): padding to v's alignment, then v's own bytes. pos stays equal to the number of bytes written. |
| DBusEncoder.Encoder.EncodeAligned | encoder.go:108-226 | The switch on the kind of value, entered at v's alignment. It appends exactly v's body and ends with v's outcome. |
| DBusEncoder.Encoder.EncodeByte | encoder.go:109-115 | A byte is appended as itself and pos advances by one. |
| DBusEncoder.Encoder.EncodeBool | encoder.go:116-121 | A bool is encoded as the UInt32 1 or 0. |
| DBusEncoder.Encoder.EncodeFixed | encoder.go:122-142 | A fixed-width number appends its Width bytes in the encoder's byte order, and pos advances by Width. |
| DBusEncoder.Encoder.EncodeString | encoder.go:143-152 | A string or object path appends its UInt32 length (the NUL not counted), its bytes and a NUL, and pos advances by all of them. |
| DBusEncoder.Encoder.EncodePointer | encoder.go:153-154 | A pointer appends what its target appends, at the same depth. |
| DBusEncoder.Encoder.EncodeArray | encoder.go:155-171 | An array at depth 64 or more fails and writes nothing more. If an element fails in the scratch stream, that failure is returned and nothing more is written. Otherwise the scratch bytes are framed into the stream. |
| DBusEncoder.Encoder.ScratchElements | encoder.go:159-164 | A fresh encoder from position 0 encodes the elements at depth+1 and stops at the first failure. It returns the outcome and, on success, the scratch bytes. |
| DBusEncoder.Encoder.WriteFramed | encoder.go:165-171 | Appends the UInt32 length of the scratch bytes, pads the stream to the body alignment, then appends the scratch bytes verbatim. |
| DBusEncoder.Encoder.EncodeStructKind | encoder.go:172-176 | A struct or variant at depth 64 or more fails and writes nothing more. A signature is exempt. Otherwise it dispatches on signature, variant or plain struct. |
| DBusEncoder.Encoder.EncodeSignature | encoder.go:177-187 | A signature appends its length cut to one byte, its bytes and a NUL, with no padding. |
| DBusEncoder.Encoder.EncodeVariant | encoder.go:188-191 | A variant appends its signature, then the boxed value at its own alignment, both one level deeper. |
| DBusEncoder.Encoder.EncodeFields | encoder.go:192-198 | The fields are encoded in declaration order, skipping those marked to be skipped, and the loop stops at the first failure. |
| DBusEncoder.Encoder.EncodeField | encoder.go:194-197 | One field appends nothing when skipped, and otherwise what encode appends for its value. |
| DBusEncoder.Encoder.EncodeMap | encoder.go:200-223 | A dictionary at depth 63 or more fails. Then a non-basic key type fails with an invalid type. An entry failure is returned with nothing more written. Otherwise the scratch bytes are framed at alignment 8. |
| DBusEncoder.Encoder.ScratchEntries | encoder.go:209-216 | A fresh encoder from position 0 encodes the entries at depth+2 and stops at the first failure. It returns the outcome and, on success, the scratch bytes. |
| DBusEncoder.Encoder.EncodeEntry | encoder.go:212-216 | One entry pads the scratch stream to 8, then writes its key and, if the key encoded, its value. |
| DBusEncoder.Encoder.EncodeKeyValue | encoder.go:214-215 | The key, then the value unless the key failed. |
| DBusEncoder.Encoder.EncodeInvalid | encoder.go:224-225 | A value of a type with no wire form writes nothing and fails with an invalid type. |
| WireTypes.Alignment | encoder.go:107 | Every type aligns to 1, 2, 4 or 8, each of which divides 8. |
| WireTypes.IsKeyType | encoder.go:206-207 | Arrays, structs, dictionaries, variants and unsupported types are never dictionary keys. |
| WireTypes.Width | encoder.go:122-142 | A fixed-width value occupies as many bytes as its alignment. |
| WireTypes.Bits | encoder.go:122-142 | The bit pattern binwrite writes fits in the value's width, and a signed number's pattern reads back as that number. |
| WireTypes.TwosComplement | encoder.go:123-135 | The two's-complement pattern of a signed number fits in w bytes and reads back as the number. |
| WireTypes.FixedRoundTrip | encoder.go:70-75 | The bytes binwrite writes decode, in the same byte order, to the number written. |
| WireFormat.AlignUp | encoder.go:59-68 | The aligned position is a multiple of n, at least pos and less than pos + n, and it equals pos when pos is already aligned. |
| WireFormat.Padding | encoder.go:62 | The padding takes pos exactly to the aligned position. |
| WireFormat.EncAligned | encoder.go:107 | At a position already aligned for v, encode writes no padding. |
| WireFormat.Surfaced | encoder.go:79-92 | The top level never reports a depth failure. It reports an invalid type exactly when encode failed with one. |
| WireFormatFacts.AlignUpIsLeast | encoder.go:59-68 | No multiple of n at or after pos comes before the position align moves to. |
| WireFormatFacts.PaddingFacts | encoder.go:59-68 | Aligning twice is aligning once. The padding is fewer than n zero bytes, and it is empty exactly when pos is aligned. |
| WireFormatFacts.AlignUpShift | encoder.go:59-68 | Moving pos by a multiple of 8 moves the aligned position by the same amount and leaves the padding unchanged. |
| WireFormatFacts.FromBits | encoder.go:122-142 | Reading back a fixed-width pattern gives a value of the requested type. |
| WireFormatFacts.FixedLayout | encoder.go:107-142 | A fixed-width value is padding to its width followed by its bytes, and those bytes read back as the value. |
| WireFormatFacts.BoolAsUInt32 | encoder.go:116-121 | A bool is written exactly as the UInt32 1 or 0, and its bytes after the padding decode to 1 or 0. |
| WireFormatFacts.ByteLayout | encoder.go:109-115 | A byte is written as itself, never padded, at any depth. |
| WireFormatFacts.StringLayout | encoder.go:143-152 | A string is padding to 4, a length that decodes to the byte count cut to 32 bits, the bytes and a NUL. An object path is written the same way. |
| WireFormatFacts.SignatureLayout | encoder.go:177-187 | A signature is its length cut to 8 bits, its bytes and a NUL, unpadded and accepted at every depth. |
| WireFormatFacts.VariantLayout | encoder.go:188-191 | A variant is its signature followed by the boxed value one level deeper, placed just after the signature. At depth 64 or more it writes nothing and fails. |
| WireFormatFacts.PointerTransparent | encoder.go:153-154 | A pointer is written exactly as the value it points to. |
| WireFormatFacts.UnsupportedFails | encoder.go:224-225 | A type with no wire form writes nothing and fails with an invalid type, which the top-level Encode passes on. |
| WireFormatFacts.ArrayLayout | encoder.go:155-171 | A successful array is padding to 4, the UInt32 scratch length, padding to the element alignment and the scratch bytes. The scratch bytes start aligned to the element type. |
| WireFormatFacts.ArrayFails | encoder.go:155-164 | An array at the depth limit, or with an element that fails in the scratch stream, leaves only its padding to 4, with that failure. |
| WireFormatFacts.FramedLength | encoder.go:165-171 | A framed body's prefix decodes to the body length cut to 32 bits, and the frame ends with the body verbatim. |
| WireFormatFacts.EmptyArray | encoder.go:159-171 | An empty array is a zero length followed by padding to the element alignment, in either byte order. |
| WireFormatFacts.DictLayout | encoder.go:200-223 | A dictionary at depth 63 or more fails after its padding, and a non-basic key type fails with an invalid type. Otherwise it is the entries' scratch bytes framed at alignment 8, or an entry failure. |
| WireFormatFacts.EntryLayout | encoder.go:212-216 | Each entry starts at a multiple of 8 of the scratch stream. A failing key ends the entry; otherwise the value follows the key. |
| WireFormatFacts.FieldsAsElements | encoder.go:192-198 | A struct writes its kept fields exactly as an array writes its elements. |
| WireFormatFacts.StructLayout | encoder.go:172-199 | A struct is padding to 8 and then its kept fields one level deeper, with no length prefix. At depth 64 or more only the padding is written, with a depth failure. |
| WireFormatFacts.NestDepth | encoder.go:155-158 | k nested arrays started at depth d encode exactly when d + k <= 64, and fail with a depth error otherwise. |
| WireFormatFacts.DepthLimit | encoder.go:79-92 | 64 nested arrays encode and 65 fail with a depth error, which the top-level Encode reports as success. |
| WireFormatFacts.MultiOutcome | encoder.go:95-102 | EncodeMulti never ends in a depth failure. It fails only if some value fails with an invalid type, and it succeeds when none can. |
| WireFormat.Enc | encoder.go:106-107 | The reference definition of encode(v, depth): padding to v's alignment, then v's own bytes, with the call's outcome. Every method contract and every layout lemma is stated in its terms. |
| WireFormat.Body | encoder.go:108-226 | The reference definition of the kind switch, one case per Go kind, entered at v's alignment. |
| WireFormat.VariantBody | encoder.go:188-191 | The reference definition of a variant: refused at depth 64 or more, otherwise the signature and then the boxed value one level deeper. |
| WireFormat.ArrayBody | encoder.go:155-171 | The reference definition of an array: refused at depth 64 or more, the elements' scratch failure passed on, otherwise the scratch bytes framed at the element alignment. |
| WireFormat.StructBody | encoder.go:172-198 | The reference definition of a plain struct: refused at depth 64 or more, otherwise its fields one level deeper. |
| WireFormat.DictBody | encoder.go:200-223 | The reference definition of a dictionary: refused at depth 63 or more, then on a non-basic key type, an entry failure passed on, otherwise the scratch bytes framed at 8. |
| WireFormat.Elements | encoder.go:162-164 | The reference definition of the element loop: each element encoded where the last ended, stopping at the first failure. |
| WireFormat.Fields | encoder.go:193-197 | The reference definition of the field loop, in declaration order, stopping at the first failure. |
| WireFormat.FieldBytes | encoder.go:194-197 | The reference definition of one field: nothing when skipped, otherwise encode of its value. |
| WireFormat.Entries | encoder.go:212-216 | The reference definition of the entry loop in the scratch stream, stopping at the first failure. |
| WireFormat.EntryBytes | encoder.go:213-215 | The reference definition of one entry: padding to 8, then the key and value. |
| WireFormat.KeyValue | encoder.go:214-215 | The reference definition of a key followed, if it encoded, by its value. |
| WireFormat.Framed | encoder.go:165-171 | The reference definition of a framed body: the UInt32 length cut to 32 bits, padding to the body alignment, the scratch bytes verbatim. |
| WireFormat.StringBytes | encoder.go:143-152 | The reference definition of a string after its alignment: the UInt32 length cut to 32 bits, the bytes, a NUL. |
| WireFormat.SignatureBytes | encoder.go:177-187 | The reference definition of a signature: the length cut to 8 bits, the bytes, a NUL. |
| WireFormat.Multi | encoder.go:94-102 | The reference definition of EncodeMulti: each value encoded at depth 0 where the last ended, stopping only at an invalid type. |
| WireTypes.FixedBytes | encoder.go:70-75 | The bytes binary.Write writes for a w-byte number in either byte order; there are exactly w of them. |
| WireFormatFacts.EncShift | encoder.go:159-164 | Encoding from pos + 8k writes exactly what encoding from pos writes. |
| WireFormatFacts.DictBodyInPlace | encoder.go:209-223 | A dictionary body lands at a multiple of 8 of the stream, so its scratch bytes equal the entries encoded in place. |
| WireFormatFacts.ArrayBodyInPlace | encoder.go:159-171 | An array of 8-aligned elements has its body land at a multiple of 8, so its scratch bytes equal the elements encoded in place. |
| WireFormatFacts.NestedBodyMisaligned | encoder.go:159-167 | An array holding one array of one INT64, written from 0, is 20 bytes long and puts the INT64 at offset 12, which is not a multiple of 8. |
| WireFormatFacts.NestedInPlace | encoder.go:159-167 | Encoded where it lands (offset 4), that inner array would carry no padding and put the INT64 at offset 8. |
| WireFormatFacts.ScratchNotInPlace | encoder.go:159-167 | The inner array's scratch bytes differ from what encoding it in place would write. |

## Left out

- Reflection (`reflect.Value`, `Kind`, `Type`, `MapKeys`) is replaced by the closed `Value` datatype. Host types with no wire form are the single `Unsupported` value.
- `alignment` and `isKeyType` are not part of this model's source. They are modelled from the D-Bus alignment table: 1 for byte, signature and variant; 2 for 16-bit numbers; 4 for bool, 32-bit numbers, strings, object paths, arrays and maps; 8 for 64-bit numbers, doubles and structs. The basic types are the key types. A pointer aligns like its target.
- Write failures of the `io.Writer` and of `bytes.Buffer`, and the panics they raise, are left out. The output is an append-only byte sequence whose writes never fail. The panic and recover plumbing is reduced to the `Outcome` of each call and to `Surfaced`.
- A double is its raw 64-bit pattern, written like a UInt64. IEEE-754 conversion is not modelled.
- Go map iteration order is unspecified. A dictionary is a sequence of entries taken in the given order, and no property depends on that order.
- A nil pointer, which `v.Elem()` would dereference, is not modelled. `Ptr` always holds a value.
- `UnixFDIndex` has no case of its own in the switch and is not modelled.
- Lengths of 2^32 bytes or more are cut to 32 bits explicitly (`% 0x1_0000_0000`), as Go's `uint32` conversion does. The length of a signature is cut to 8 bits.
- A dictionary's keys are not checked against its key type. The key type is checked once with `IsKeyType`, as at `encoder.go:206`, but the model does not tie the entries' keys to it. So the model accepts a dictionary tagged with a basic key type whose keys are containers, which Go cannot build, since `MapKeys` yields values of the key type.
- An array's element type is not checked against its elements, since reflection guarantees it in Go. The model takes the element type as given and uses it only for the body alignment.
- There is no concurrency in the source, and none in the model.
