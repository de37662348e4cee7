# A verified model of wincode

wincode is a bincode-compatible codec whose speed comes from unchecked fast paths: a value of static
size is reserved once and then read or written without bounds checks, plain data is copied in bulk,
values are built in place in uninitialised memory. Each of these paths is justified in the source by
a SAFETY comment. This project models the codec and proves what those comments, and the crate's
documentation, promise - for every schema, configuration, value and input.

## How the model is built

- `Schema.dfy` embeds the schema universe as a datatype: integers, `bool`, `char`, strings, options,
  arrays, sequences, maps, structs with skipped fields and a representation, enums with tags, boxes,
  and the `DefaultOnEmptyRead`, `Discard` and `DiscardSeq` adapters. `Meta` is the compile-time
  metadata, `LayoutOf` the memory layout. Tuples and `()` are structs with the Rust representation,
  `Result` is an enum with two variants, sets are maps to `()`, `usize` is 64 bits wide. Where Rust
  leaves a layout open, the schema carries the layout the compiler chose.
- `Config` holds the integer encoding, the byte order, the byte order of the platform, the tag
  encoding and the preallocation limit; a `SeqLen` is a length encoding with its own override.
- `Codec.dfy` defines writing, sizing and reading. `Decode` comes in two modes: `Plain` goes field by
  field and element by element and is the reference; `Windowed` is what the code does, with trusted
  windows and bulk copies. `Wf` says which schemas the compiler lets through (validated tags,
  literals that fit, arrays whose static size, a product in a constant, does not overflow).
- `Memory.dfy` says what a value looks like in memory, padding included, and what a piece of memory
  denotes. `ZeroCopy.dfy` derives from the C layout rule (Rust Reference, "Type layout",
  "The C Representation") that a struct judged zero-copy has no padding, and that copying its memory
  is encoding it.
- `IntWire.dfy`, `WireFormat.dfy`, `Layout.dfy` and `SchemaRules.dfy` state the documented rules in plain
  numbers and terms, apart from the functions that compute them: the bytes of integers, lengths, tags
  and strings, the C layout rule, which types are static, zero-copy or let through.
  `Occurrence.dfy` puts the conditions of the theorems (`NoDefault`, `Checked`, `Lossless`, `Rigid`,
  `Keeps`) in terms of the types that occur in a type.
- `Readers.dfy`, `Writers.dfy` and `Cursor.dfy` are the mutable readers and writers as classes:
  the checked slice, the unchecked window over it, the limiting wrapper, memory whose bytes may be
  uninitialised, and the cursor over a growable vector. Their unchecked operations carry the
  caller's obligation as a precondition, so every call in the project is a proof that the access
  stays inside its window.
- `Reads.dfy`, `Writes.dfy`, `Sizing.dfy`, `Deserialize.dfy`, `Serialize.dfy` and `BitVecCode.dfy` are
  the code itself: recursive methods with loops, each proved to compute what `Decode`, `Encode` or
  `SizeOf` says and to touch no byte outside its writer. `Records.dfy` adds the read of records with
  optional trailing fields.
- Sizes are computed in `usize` without overflow checks, so sums and products wrap (`WrappingAdd`,
  `WrappingMul` in `Prim.dfy`, `Join` in `TypeMeta.dfy`); only the sizes of arrays, of results and of
  sequences on reading are checked. `WindowSize.dfy` says when the window reserved for a sequence
  covers what is written into it, `FieldWindow.dfy` the same for the fields of structs, tuples and
  variants, on both sides.
- `DropGuards.dfy` follows the life of every value built while reading, `UninitBuilder.dfy` the
  generated builder. `BitVec.dfy` models `bv` in strict and lenient mode, from the documented meaning
  of its operations (`block_len`, `get_block`, `get_raw_block`, `from`, `truncate`).

The laws meet in a few places. `WindowedAgrees` lets every statement be proved about the plain read
and hold for the code, where no window wraps. `Stable` (in `Prim.dfy`) says that reading depends only on the bytes it
consumes; from it follow prefix-freedom, nesting of windows, and the exact meaning of a size limit.
`Exact` (in `StaticSize.dfy`) says that a static size is the number of bytes consumed. Sequences of
bytes are shorter than the address space wherever the code relies on it.

Positions after a failed read differ between the paths of the code, as do the errors when input is
both too short and invalid; the statements compare success, value, remaining input and - where the
code fixes it - the error.

Some promises do not hold on all inputs; for each the exact condition is proved, and an input that
breaks it:

- The SAFETY comments of structs, tuples and variants say that the window is the sum of the sizes of
  the fields. The sum is taken without overflow checks, also where it is taken in a constant, because
  the addition sits in a function. The window covers what the fields read or write exactly when their
  sizes, with the tag where there is one, add up to less than the address space
  (`FieldWindows.ReadWindowCovers`, `WriteWindowCovers`, `VariantWindowCovers`, for all field lists).
  Otherwise it is too small: an enum whose variant has two arrays of 2^61 enums of one variant takes
  no memory and compiles; its fields are read behind a window of no bytes and written behind one of
  four (`VariantWindowWraps`). `Roomy` asks the condition of a schema for reading, `Sized` of a value
  for writing. What is said of the windowed read is said of `Roomy` schemas; encodings, announced sizes
  and round trips through the plain read need no such condition.
- The SAFETY comment of a sequence's window says that the window covers the length and all elements.
  It does exactly when length and elements together are shorter than the address space
  (`WindowCovers`, and `EntryWindowCovers` for maps). Otherwise the size wraps, and elements are
  written behind the window: a slice of 2^62 enums with one variant, which takes no memory, gets a
  window of eight bytes (`WindowWrapsForSlice`), and so does an iterator over `u16` that reports 2^63
  elements (`WindowWrapsForIterator`). `Sized` asks the condition of every sequence in a value that
  the preallocation check does not refuse first; a caller can check it before writing, and every
  method of `Writes.dfy` is proved under it. It follows from an encoding shorter than the address
  space (`ShortIsSized`), and for a slice in memory from elements that are no larger on the wire than
  in memory (`SliceInMemoryFits`).
- The announced size is the size written modulo the address space (`SizeExact`), so it is exact
  exactly for encodings shorter than that.
- What an unchecked writer of a length emitted is read back exactly when each length passes the
  reader's check (`UncheckedRoundTrip`, `UncheckedCanFail`).
- The length `serialize` gives its vector is right exactly when the allocator supplied no extra
  capacity (`Serialize.ToVec`).
- A map whose static entries are as large as the address space is refused by the windowed read even
  when it is empty (`HugeEntriesRefused`); it is not `Roomy`.
- Agreement of the windowed with the plain read holds for schemas without `DefaultOnEmptyRead`, which
  can break it (`DefaultSeesWindow`). Under a default it holds exactly when neither inner read runs
  out of input, or both do and stop at the same place (`DefaultAgreesExactly`); so always for
  integers, booleans, characters and strings (`DefaultOfScalarAgrees`), and for any type on inputs
  that are empty or start with a whole value (`DefaultAgrees`).

Where the documentation and the code differ, the model follows the code: the documentation of
variable-length integers lists the encoder's cases only, the decoder also accepts longer forms
(`LongTagAccepted`).

## Model

| member | source | states |
|---|---|---|
| Prim.OrderRoundTrip | wincode/src/schema/int_encoding.rs:68-104 | in either byte order, the bytes of a number below 256 to the power w denote that number |
| Prim.OrderOnto | wincode/src/schema/int_encoding.rs:68-104 | in either byte order, every string of w bytes is the encoding of exactly the number it denotes |
| IntWire.ByteOrder | wincode/src/schema/int_encoding.rs:68-104 | byte by byte, a fixed-width number is its digits in base 256, the lowest first in little endian and last in big endian |
| IntEncoding.ZigzagInverse | wincode/src/schema/int_encoding.rs:304-420 | zigzag stays within its unsigned type for every value down to the minimum, and is undone by its inverse |
| IntEncoding.ZigzagOnto | wincode/src/schema/int_encoding.rs:361-383 | every unsigned value is the zigzag image of exactly one value in range |
| IntWire.ZigzagValue | wincode/src/schema/int_encoding.rs:304-360 | zigzag of a number i is 2i, and -2i-1 below zero |
| IntWire.UnzigzagValue | wincode/src/schema/int_encoding.rs:361-383 | an even number n is read as n/2, an odd one as -(n/2)-1 |
| IntEncoding.VarInverse | wincode/src/schema/int_encoding.rs:422-592 | at each width and byte order, decoding an encoded number gives it back and leaves what follows |
| IntWire.VarForm | wincode/src/schema/int_encoding.rs:290-301 | below 251 the number is its own byte; below 2^16 it is 251 and two bytes, below 2^32 252 and four, below 2^64 253 and eight, else 254 and sixteen |
| IntWire.VarBytes | wincode/src/schema/int_encoding.rs:422-475 | the same byte by byte in either byte order, with the size announced for it |
| IntWire.VarRead | wincode/src/schema/int_encoding.rs:492-592 | a first byte up to 250 is the number, 255 is refused, and 251 to 254 announce a payload that is refused if wider than the type, cut short if not there, and else the number |
| IntEncoding.SizeVarExact | wincode/src/schema/int_encoding.rs:487-569 | the announced size of a variable-length integer is the number of bytes emitted |
| IntEncoding.VarWidthIrrelevant | wincode/src/schema/int_encoding.rs:290-301 | the same number encoded at any two widths that hold it gives the same bytes |
| IntEncoding.VarReencode | wincode/src/schema/int_encoding.rs:492-592 | re-encoding an accepted input is never longer, and reproduces it exactly when the tag read was the shortest |
| IntEncoding.LongTagAccepted | wincode/src/schema/int_encoding.rs:492-501 | a concrete longer-than-needed encoding is accepted, so canonicity fails for variable-length integers |
| IntEncoding.IntRoundTrip | wincode/src/schema/int_encoding.rs:110-250 | for every kind, configuration and value in range, reading undoes writing and the size is exact |
| IntWire.IntBytes | wincode/src/schema/int_encoding.rs:110-250 | two's complement bytes when integers are fixed-width or one byte wide, else the variable-length form of the number, in zigzag if signed |
| IntWire.IntRead | wincode/src/schema/int_encoding.rs:110-250 | reading takes the same forms apart, for every input |
| IntEncoding.IntReencode | wincode/src/schema/int_encoding.rs:68-104 | what is read is in range; a fixed-width read is reproduced byte for byte |
| Utf8.MasksAreArithmetic | wincode/src/schema/impls.rs:389-416 | the bit masks of the decoder are the remainders and quotients used in the model |
| Utf8.AcceptsExactlyWellFormed | wincode/src/schema/impls.rs:371-423 | an input is accepted exactly when it starts with a well-formed sequence of section 4 of RFC 3629 |
| Utf8.AcceptedIsWellFormed | wincode/src/schema/impls.rs:371-423 | the bytes consumed are one well-formed sequence, and the section 3 encoder gives them back for the scalar read |
| Utf8.CharRoundTrip | wincode/src/schema/impls.rs:351-423 | every scalar value written is read back, leaving what follows |
| Utf8.CharDecides | wincode/src/schema/impls.rs:371-423 | for every input: the first byte announces the length or is refused, too short an input runs out, a well-formed sequence is decoded, any other is refused with the whole sequence consumed |
| Utf8.NeverInvalidCode | wincode/src/schema/impls.rs:420-421 | the error for an invalid code point cannot occur |
| Utf8.IllFormed2 | wincode/src/schema/impls.rs:377-392 | a two-byte buffer handed to the error helper is never valid UTF-8, so the helper cannot panic |
| Utf8.IllFormed3 | wincode/src/schema/impls.rs:394-404 | the same for three bytes, overlong forms and surrogates included |
| Utf8.IllFormed4 | wincode/src/schema/impls.rs:405-412 | the same for four bytes, overlong and too large forms included |
| Utf8.ValidIsEncodedText | wincode/src/schema/impls.rs:1095 | bytes are a valid string exactly when they are the encodings of a sequence of scalar values, one after the other |
| WireFormat.StringOffTheWire | wincode/src/schema/impls.rs:1085-1155 | behind a length that passes its check, the encoding of any sequence of scalar values is read as that string, and any other bytes are reported as invalid, with the same bytes consumed |
| TypeMetas.JoinTypes | wincode/src/schema/mod.rs:185-203 | the loop, adding in `usize` without overflow checks, computes the join of its parts |
| TypeMetas.JoinCovers | wincode/src/schema/mod.rs:185-203 | the joined size is the sum of the sizes modulo the address space; it covers the sum exactly when the sum is smaller than that, and is then the sum |
| TypeMetas.JoinParts | wincode/src/schema/mod.rs:185-203 | every part of a static join is static, no larger if the sum fits a `usize`, and zero-copy if the join is |
| TypeMetas.JoinDynamic | wincode/src/schema/mod.rs:185-203 | the join is dynamic exactly when some part is |
| TypeMetas.Choose | wincode-derive/src/common.rs:516-546 | the loop answers static, with the size of the first variant, exactly when all variants are static with that size |
| SchemaRules.StaticEnums | wincode-derive/src/common.rs:443-549 | an enum is static exactly when it has variants, its tag takes a fixed number of bytes, and the fields of all variants are static and add up to the same size |
| SchemaRules.StaticStructs | wincode-derive/src/common.rs:345-361 | a struct is static exactly when every field that is not skipped is |
| Lens.LenRoundTrip | wincode/src/len.rs:208-246 | a length that was written is read back, and its announced size is exact |
| Lens.LenSizeExact | wincode/src/len.rs:148-165 | whenever a length can be written, the bytes announced for it are the bytes written |
| Lens.PreallocRule | wincode/src/len.rs:58-122 | a length fits exactly when no limit applies or its charge, at least one byte an element, is within the limit and below the address space; the override chooses the limit, and a refusal reports the charge |
| Lens.RefusalRule | wincode/src/len.rs:100-158 | writers and readers refuse a length exactly when it does not fit, reporting charge and limit; the reader stands behind the length then |
| WireFormat.LenSizeRule | wincode/src/len.rs:233-245 | the bytes announced for a length: its width where that is fixed, whatever the length, else those of its encoding |
| WireFormat.LenOnTheWire | wincode/src/len.rs:208-246 | a length is an integer of its type, fixed-width if its encoding is, and refused exactly when the type does not hold it |
| WireFormat.LenOffTheWire | wincode/src/len.rs:208-246 | for every input, a length is such an integer, refused exactly when it is no `usize` |
| Lens.ValidateVariantTags | wincode-derive/src/common.rs:604-629 | accepted exactly when no two explicit tags are equal and no explicit tag is the position of an untagged variant |
| Lens.FindsOwnVariant | wincode-derive/src/common.rs:424-429 | with distinct tags, matching a variant's tag selects that variant |
| Lens.TagRoundTrip | wincode/src/schema/tag_encoding.rs:110-141 | every tag that fits its encoding is read back to its own variant, with an exact size |
| WireFormat.TagOnTheWire | wincode-derive/src/common.rs:424-429 | whatever is written for a variant starts with its explicit tag, or else its position, in the tag encoding of the enum, or else the configured one; its fields follow |
| WireFormat.TagOffTheWire | wincode-derive/src/schema_read.rs:222-320 | those bytes select that variant, and its fields are read from what follows |
| WireFormat.TagSelects | wincode-derive/src/schema_read.rs:222-320 | so does whatever else is read as the tag of that variant |
| WireFormat.UnknownTag | wincode-derive/src/schema_read.rs:301-320 | for every input: a tag no variant has is refused, as an overflow where a `u32` does not hold it, and what is no tag is refused as the integer is |
| WireFormat.TagRefused | wincode/src/schema/tag_encoding.rs:110-141 | a tag its encoding cannot hold is refused on writing and on sizing, and no other is |
| StaticSize.StaticRead | wincode-derive/src/schema_read.rs:179-195 | in a schema where no sum of sizes wraps, every successful read of a static schema, windowed or not, consumes exactly its static size, and that many bytes never run out |
| StaticSize.StaticWrite | wincode-derive/src/schema_write.rs:70-88 | every successful write of a static schema emits its static size modulo the address space, so exactly that if it emits less |
| WindowSizes.SizedWrite | wincode-derive/src/schema_write.rs:70-88 | where every window in the value covers what is written into it, a static schema emits exactly its static size |
| StaticSize.StaticEnum | wincode-derive/src/common.rs:443-549 | a static enum has for every variant the size of tag plus fields, added without overflow checks, and is never zero-copy |
| StaticSize.ResultIsEnum | wincode/src/schema/impls.rs:779-795 | where the hand-written metadata of a result compiles, it is that of the enum with the same two variants; it does not where the sum of the enum would wrap |
| StaticSize.ZeroCopySize | wincode-derive/src/common.rs:346-358 | a zero-copy type is exactly as large in memory as on the wire |
| StaticSize.SizeExact | wincode/src/schema/mod.rs:206-244 | whenever a value is written, the size announced for it is the number of bytes written modulo the address space, so it is exact exactly if the encoding is shorter than that |
| WireFormat.ElemsInOrder | wincode/src/schema/mod.rs:470-524 | a run of elements is written as its first part and then the rest |
| WireFormat.EntriesInOrder | wincode/src/schema/impls.rs:1210-1262 | the same for entries, each key before its value |
| WireFormat.FieldsInOrder | wincode-derive/src/schema_write.rs:30-92 | fields are written in declaration order, skipped ones not at all |
| SchemaRules.LightIsRoomy | wincode/src/schema/mod.rs:185-203 | a type whose static parts weigh less than the address space, arrays with all their elements, has windows that hold what is read inside |
| Sizing.SumFields | wincode-derive/src/schema_write.rs:60-69 | the accumulating loop computes the wrapping sum of the sizes of the fields, or the first refusal |
| Sizing.StructSize | wincode-derive/src/schema_write.rs:60-69 | a struct's announced size is what it writes, modulo the address space |
| Sizing.EnumSize | wincode-derive/src/schema_write.rs:181-196 | an enum's announced size is what it writes, modulo the address space, its tag being checked before the static answer |
| ZeroCopy.ZeroCopyStructIsPacked | wincode-derive/src/common.rs:346-358 | a struct judged zero-copy, with or without a minimum alignment, has no gap between fields, its skipped fields are zero-sized, and its memory is as large as its fields; `Layouts` gives the rule its offsets and size follow |
| ZeroCopy.ZeroCopyOffsets | wincode-derive/src/common.rs:346-358 | under the C layout rule, minimum alignments included, every field of such a struct lies right behind the previous one |
| Layouts.OffsetRule | wincode-derive/src/common.rs:346-354 | under the C layout rule, every field lies at the least multiple of its alignment not below the end of the previous one |
| Layouts.CStructRule | wincode-derive/src/common.rs:346-354 | a C struct is aligned as its most demanding field or its attribute, and its size is the least multiple of that not below the end of the last field |
| Layouts.ZeroCopyBySize | wincode-derive/src/common.rs:346-358 | a struct is judged zero-copy exactly when its layout is specified, every field that is not skipped is zero-copy, and it takes as much memory as these together |
| Layouts.ZeroCopyByOffsets | wincode-derive/src/common.rs:346-358 | a C struct of zero-copy fields is judged so exactly when every field starts where the previous one ends, skipped fields take no memory, and nothing follows the last |
| Layouts.PaddedPair | wincode-derive/src/common.rs:349-354 | with integers in the platform's representation, `{ u8, u32 }` takes eight bytes, five on the wire, and is not zero-copy; `{ u32, u32 }` is |
| SchemaRules.ZeroCopyOthers | wincode/src/schema/int_encoding.rs:110-250 | every other type is zero-copy exactly if it is an integer of one byte or in the platform's representation, a boolean being written, or an array of such |
| ZeroCopy.ReinterpretIsDecode | wincode/src/schema/containers.rs:731-739 | every byte string of the right size, taken as memory, denotes the value that decoding it field by field gives |
| ZeroCopy.ReinterpretAllIsDecode | wincode/src/schema/containers.rs:731-739 | the same for slices: the bulk read equals the element loop |
| ZeroCopy.ImageIsEncoding | wincode/src/schema/impls.rs:693-701 | the memory of a zero-copy value, nested structs and arrays included, is its encoding whatever the padding bytes |
| ZeroCopy.ImageAllIsEncoding | wincode/src/schema/mod.rs:535-550 | the bulk write of a slice equals the element loop |
| Extension.Extend | wincode/src/schema/mod.rs:253-294 | reading depends only on the bytes it consumes: more input changes nothing but the rest, and a read that ran out either still fails or consumes some of the addition |
| Windows.WindowedAgrees | wincode-derive/src/schema_read.rs:179-195 | for every schema in which no sum of sizes wraps and without an end-of-input default, and every input shorter than the address space, the code's read and the field-by-field read succeed together, with the same value and remaining input |
| Windows.SliceAgrees | wincode/src/schema/containers.rs:719-764 | filling a slice in bulk, in a window or slot by slot gives the same elements and remaining input |
| Windows.FieldsInAgrees | wincode-derive/src/schema_read.rs:271-292 | reading the fields of a variant inside their window agrees with reading them without, where their sizes add up to less than the address space |
| FieldWindows.ReadWindowCovers | wincode-derive/src/schema_read.rs:277-282 | for all field lists: static fields consume the sum of their sizes, however large; the window covers it exactly when the sum is smaller than the address space, and where it is not no input is long enough for the fields |
| FieldWindows.WriteWindowCovers | wincode-derive/src/schema_write.rs:70-88 | for all field lists: static fields write the sum of their sizes, and the window covers it exactly when the sum is smaller than the address space |
| FieldWindows.VariantWindowCovers | wincode-derive/src/schema_write.rs:198-205 | the same for the tag of a variant and its fields |
| FieldWindows.WriteWindowWraps | wincode-derive/src/schema_write.rs:70-88 | whatever lies inside the fields, the window is what they write modulo the address space, so it covers them exactly when they write less |
| FieldWindows.VariantWindowWraps | wincode-derive/src/schema_read.rs:277-282 | an enum the compiler lets through, without memory: a window of no bytes for fields that read 2^64, and four announced and reserved bytes for an encoding of 2^64 and four |
| Windows.MapAgrees | wincode/src/schema/impls.rs:1253-1276 | reading a map's entries inside their window agrees with reading them without |
| Windows.DefaultSeesWindow | wincode/src/schema/adapter.rs:195-204 | with an end-of-input default the two reads can leave different input, by a concrete input |
| Windows.HugeEntriesRefused | wincode/src/schema/impls.rs:1253-1259 | an empty map is accepted by the windowed read exactly when its static entries are smaller than the address space, and always by the plain one |
| Records.DefaultOfScalarAgrees | wincode/src/schema/adapter.rs:195-204 | a default over an integer, boolean, character or string: both reads have the same outcome on every input |
| Records.DefaultAgrees | wincode/src/schema/adapter.rs:195-204 | a default over any type with a non-empty encoding: both reads have the same outcome on inputs that are empty or start with a whole value |
| Records.DefaultAgreesExactly | wincode/src/schema/adapter.rs:195-204 | the outcomes under a default agree exactly when neither inner read runs out of input, or both do and stop at the same place |
| Readers.Reader.ReserveLimit | wincode/src/io/limit_reader.rs:58-70 | the limit pays in advance, or refuses and stays as it is |
| Readers.Reader.TakeBytes | wincode/src/io/slice.rs:281-341 | exactly the requested bytes in order, or the size-limit error with that size; a limited reader never consumes more than it paid for |
| Readers.Reader.AsTrustedFor | wincode/src/io/slice.rs:332-341 | a window over exactly the next bytes with the reader behind them; on an unchecked reader the reader itself, unmoved |
| Readers.Reader.AsTrustedForSeq | wincode/src/io/mod.rs:245-256 | the same for a sequence, refusing products beyond the address space |
| Readers.ReadVar | wincode/src/schema/int_encoding.rs:347-358 | the reader moves over tag and payload exactly as the decoding function says |
| Readers.ReadInt | wincode/src/schema/int_encoding.rs:86-97 | the integer read and the reader's position are those of the decoding function |
| Readers.ReadBool | wincode/src/schema/impls.rs:332-345 | zero and one are the booleans, any other byte is reported, and the reader moves by one |
| Readers.ReadChar | wincode/src/schema/impls.rs:371-423 | the scalar read, the error and the position are those of the decoding function |
| Readers.ReadLen | wincode/src/len.rs:217-223 | the length or its pointer-size error, and the position, are those of the decoding function |
| Readers.ReadLenChecked | wincode/src/len.rs:130-135 | the length, the preallocation error and the position are those of the decoding function |
| Readers.ReadStr | wincode/src/schema/impls.rs:1079-1135 | the string, the error and the position are those of the decoding function |
| Readers.ReadTag | wincode/src/schema/tag_encoding.rs:136-141 | the tag, its overflow error and the position are those of the decoding function |
| Reads.NestedFields | wincode/src/io/mod.rs:228-230 | fields read directly from an unchecked reader have the outcome of a window of their own: they stay inside it and fill it |
| Reads.NestedMany | wincode/src/io/mod.rs:228-230 | the same for a run of elements |
| Reads.Read | wincode/src/schema/mod.rs:284-294 | for every schema in which no sum of sizes wraps and without an end-of-input default, from any reader: value, error and remaining input are those of decoding, every unchecked access is in bounds at any depth, no more is consumed than was paid for |
| Reads.ReadOption | wincode/src/schema/impls.rs:731-740 | tag, value and errors of an option are those of decoding |
| Reads.ReadSeq | wincode/src/schema/impls.rs:554-580 | a vector is the checked length and that many decoded elements |
| Reads.ReadSlice | wincode/src/schema/containers.rs:386-400 | freshly reserved memory becomes the decoded elements |
| Reads.DecodeIntoSlice | wincode/src/schema/containers.rs:719-764 | on success every slot is initialised with the decoded element, by whichever path |
| Reads.FillSlots | wincode/src/schema/containers.rs:745-760 | the index loop initialises slot after slot with the elements in order |
| Reads.FillSlotsIn | wincode/src/schema/containers.rs:739-752 | the slots are filled from inside one window, or from the unchecked reader itself |
| Reads.ReadMap | wincode/src/schema/impls.rs:1248-1280 | the map read is the insertion of the decoded entries in order |
| Reads.ReadEntries | wincode/src/schema/impls.rs:1253-1278 | the window for static entries is refused where its size overflows, and the entries are those of decoding |
| Reads.InsertMany | wincode/src/schema/impls.rs:1268-1273 | after any number of entries the map is the insertion of those decoded so far |
| Reads.ReadStruct | wincode-derive/src/schema_read.rs:178-195 | a struct read through its window or field by field is the decoded struct, where no sum of sizes wraps |
| Reads.ReadFieldsIn | wincode-derive/src/schema_read.rs:179-189 | static fields are read inside a window of their joined size, where their sizes add up to less than the address space |
| Reads.ReadFields | wincode-derive/src/schema_read.rs:65-101 | fields in declaration order, skipped ones taking their defaults without reading |
| Reads.ReadEnum | wincode-derive/src/schema_read.rs:301-322 | tag, arm and fields read are those of decoding, where no sum of sizes wraps |
| Reads.ReadVariant | wincode-derive/src/schema_read.rs:271-292 | the fields of a variant, through a window when all are static and their sizes add up to less than the address space, are the decoded ones |
| Reads.SkipMany | wincode/src/schema/adapter.rs:411-418 | decoding elements only to drop them consumes what decoding them does |
| Reads.ReadDiscardSeq | wincode/src/schema/adapter.rs:401-420 | the elements are decoded and dropped, and the reader ends behind them |
| Records.ReadOptionalField | wincode/src/schema/adapter.rs:195-204 | the value read, or the default where the read ran out of input, or the error; at the end of input the reader stays there |
| Records.ReadTail | wincode/src/schema/adapter.rs:150-176 | optional fields one after the other are the decoded ones wherever defaults are taken at the end of input only |
| Records.ReadRecord | wincode/src/schema/adapter.rs:150-176 | from any checked reader, a record with optional trailing fields is the decoded record wherever defaults are taken at the end of input only |
| Records.ReadOldRecord | wincode/src/schema/adapter.rs:120-176 | from a record cut before its optional fields: the fields as written and the defaults, with the reader at the end |
| Deserialize.FromSlice | wincode/src/config/serde.rs:63-94 | from a truncated slice: the outcome defined for input and limit |
| Deserialize.FromReader | wincode/src/config/serde.rs:115-130 | through the limiting wrapper: the same outcome, value or error, and never more inner bytes consumed than the limit |
| Deserialize.LimitIsExact | wincode/src/config/serde.rs:48-81 | a limited read succeeds exactly when the unlimited one does and consumes no more than the limit |
| Deserialize.Exactly | wincode/src/config/serde.rs:225-249 | succeeds with a value exactly when decoding it uses up the whole input and the input is within the limit |
| Writers.Writer.Put | wincode/src/io/slice.rs:437-459 | all bytes at the position and none elsewhere, or the size-limit error with memory untouched and the writer left empty |
| Writers.Writer.AsTrustedFor | wincode/src/io/slice.rs:438-447 | a window over exactly the next bytes with the writer behind them; on an unchecked writer the writer itself |
| Writers.WriteVar | wincode/src/schema/int_encoding.rs:422-475 | tag and payload fill their window with exactly the encoding |
| Writers.WriteInt | wincode/src/schema/int_encoding.rs:72-84 | the bytes written are the encoding, also through an unchecked writer it fits |
| Writers.WriteLen | wincode/src/len.rs:226-231 | the encoded length, or the overflow error |
| Writers.WriteTag | wincode/src/schema/tag_encoding.rs:119-134 | the encoded tag, or the overflow error |
| Writes.Write | wincode/src/schema/mod.rs:212-244 | for every schema, every value whose windows cover what is written into them, into any writer: succeeds exactly when the encoding exists and fits, then writes those bytes and no others; a failure leaves everything outside the writer as it was; every unchecked write is in bounds at any depth |
| Writes.WriteStr | wincode/src/schema/impls.rs:1052-1072 | the length and then the bytes of the string, after the check only where the type makes it |
| Writes.WriteOption | wincode/src/schema/impls.rs:761-769 | the tag and then the value, if any |
| Writes.WriteSeq | wincode/src/schema/containers.rs:269-273 | a vector is checked against the preallocation limit and written as a sequence, if it is refused or the windows cover it |
| Writes.UpToIsAll | wincode/src/schema/mod.rs:474-489 | what is written from an iterator is the encoding of exactly the reported number of elements, and an iterator with fewer is refused |
| Writes.WriteElemIter | wincode/src/schema/mod.rs:458-504 | for an iterator whose reported length may be wrong, where the window covers that many elements: never past the window, and success only after the length and exactly that many elements |
| Writes.WriteElems | wincode/src/schema/mod.rs:479-489 | the counted loop writes the elements in order, and stops at the first missing or refused one |
| Writes.WriteElemSlice | wincode/src/schema/mod.rs:526-552 | a slice in bulk or through its iterator is the encoding of the sequence, if the windows cover it |
| Writes.WriteInBulk | wincode/src/schema/mod.rs:535-550 | length and memory of all elements fill one window with the encoding of the sequence, if the window covers them |
| Writes.WriteArray | wincode/src/schema/impls.rs:693-719 | array elements by bulk copy, in a window or one by one are the encoded array |
| Writes.WriteMap | wincode/src/schema/impls.rs:1210-1239 | the entries are written behind a length checked against the preallocation limit, if they are refused or the windows cover them |
| Writes.WriteEntriesIn | wincode/src/schema/impls.rs:1211-1227 | static entries fill one window with their length and encodings, if it covers them |
| Writes.WriteEntries | wincode/src/schema/impls.rs:1220-1223 | keys and values alternate in iteration order |
| Writes.WriteStruct | wincode-derive/src/schema_write.rs:70-88 | the unskipped fields fill their window with the encoding of the struct, if the window covers them |
| Writes.WriteFields | wincode-derive/src/schema_write.rs:44-56 | the unskipped fields in declaration order, up to the first refused one |
| Writes.WriteEnum | wincode-derive/src/schema_write.rs:109-131 | the tag of the value's own variant and its fields, if the window covers them |
| Writes.WriteVariant | wincode-derive/src/schema_write.rs:198-215 | tag and fields fill one window when all are static, if it covers them, and are the encoding of the variant |
| WindowSizes.WindowCovers | wincode/src/schema/mod.rs:490-497 | the window reserved for a sequence covers the length and the elements exactly when together they are shorter than the address space, and is then exactly as large |
| WindowSizes.EntryWindowCovers | wincode/src/schema/impls.rs:1211-1218 | the same for the entries of a map, whose own size is a sum that may wrap |
| WindowSizes.ShortIsSized | wincode/src/schema/mod.rs:490-497 | a value whose encoding is shorter than the address space has no window that wraps, at any depth: sequences, structs and variants |
| WindowSizes.SliceInMemoryFits | wincode/src/schema/mod.rs:526-552 | the window of a slice that lies in memory covers it, unless its elements are larger on the wire than in memory |
| WindowSizes.WindowWrapsForSlice | wincode/src/schema/mod.rs:490-497 | a slice of 2^62 one-variant enums takes no memory and announces eight bytes; its window of eight bytes holds the length, and all 2^64 bytes of its elements lie outside |
| WindowSizes.WindowWrapsForIterator | wincode/src/schema/mod.rs:490-497 | an iterator over two-byte integers that reports 2^63 elements gets a window of eight bytes, which does not cover them |
| Serialize.Into | wincode/src/config/serde.rs:44-50 | if the windows cover what is written into them: succeeds exactly when the encoding exists and fits, having written exactly the announced size; a buffer with room for the encoding is never too small |
| Serialize.ToVec | wincode/src/config/serde.rs:19-32 | if the windows cover what is written into them: succeeds exactly when there is an encoding shorter than the address space, and computes the right length exactly when the allocator supplied no extra capacity |
| Maps.CollectDenotes | wincode/src/schema/impls.rs:1268-1273 | the insertion loop builds the map the entries denote, later entries replacing earlier ones, with distinct keys |
| Maps.LastEntryCounts | wincode/src/schema/impls.rs:1268-1273 | in the map that entries denote, each key is bound to the value of its last entry |
| Maps.SameMeaning | wincode/src/schema/mod.rs:206-294 | values without maps mean the same exactly when they are equal |
| RoundTrip.ReadBack | wincode/src/schema/mod.rs:206-294 | whatever is written is read back with skipped fields defaulted, or fails on the preallocation limit, and which of the two depends only on the lengths in it |
| Guarantees.CheckedRoundTrip | wincode/src/schema/mod.rs:206-294 | after a checked write, reading returns the value, leaves exactly what follows, and never fails on the preallocation limit |
| Guarantees.CheckedIsReadable | wincode/src/len.rs:100-135 | what a checking writer lets through passes the same check in the reader |
| Guarantees.UncheckedRoundTrip | wincode/src/schema/impls.rs:627-629 | after an unchecked write, reading succeeds exactly when each length passes the reader's check |
| Guarantees.UncheckedCanFail | wincode/src/schema/impls.rs:1052-1056 | a concrete borrowed string that is written and then rejected by the reader |
| Guarantees.MapOrderIrrelevant | wincode/src/schema/impls.rs:1210-1280 | two iteration orders of one map read back as equal maps |
| Guarantees.PrefixRunsOut | wincode/src/schema/adapter.rs:150-176 | every proper prefix of an encoding fails with the size-limit error and with no other |
| Guarantees.PrefixFree | wincode/src/schema/mod.rs:206-294 | no encoding is a proper prefix of another |
| Guarantees.CutFields | wincode/src/schema/adapter.rs:195-204 | fields before a cut are read as written, the optional ones behind it as their defaults |
| Guarantees.OldRecord | wincode/src/schema/adapter.rs:120-176 | a struct cut before any of its trailing optional fields decodes with their defaults |
| Guarantees.DiscardSeqMatchesVec | wincode/src/schema/adapter.rs:401-420 | discarding a sequence accepts and consumes exactly what reading it as a vector does |
| Guarantees.DiscardSeqMatchesMap | wincode/src/schema/adapter.rs:401-420 | discarding pairs accepts and consumes exactly what reading the map does |
| Guarantees.NestedDiscardMatches | wincode/src/schema/adapter.rs:328-342 | discarding nested sequences, at any depth, accepts and consumes exactly what reading the nested vectors does |
| Guarantees.DiscardSeqMatchesString | wincode/src/schema/adapter.rs:328-342 | a string discarded as bytes is accepted exactly when it is read or only its UTF-8 is invalid, and the same bytes are consumed |
| Canonical.ReadIsTyped | wincode/src/schema/mod.rs:253-294 | every value read is a value of its type: in range, valid UTF-8, scalar, of the right length, with distinct keys |
| Canonical.ReadAgain | wincode/src/schema/int_encoding.rs:110-250 | writing a value that was read is never longer than what was read, and with fixed-width integers is the same bytes |
| Canonical.WritesAgain | wincode/src/len.rs:100-135 | what was read can be written under the same configuration |
| Canonical.FixedIsCanonical | wincode/src/schema/mod.rs:206-294 | with fixed-width integers, by the plain read and by the code, an input is accepted in full exactly when it is the encoding of the value read |
| Cursors.OverlayBytes | wincode/src/io/cursor.rs:364-375 | an overlay byte is the written one, else the old one, else zero |
| Cursors.OverlayChunks | wincode/src/io/cursor.rs:412-436 | writing in chunks is writing their concatenation |
| Cursors.Cursor.Grow | wincode/src/io/cursor.rs:293-300 | growing keeps the bytes within the length and promises nothing about the rest |
| Cursors.Cursor.MaybeGrow | wincode/src/io/cursor.rs:287-302 | capacity for position plus size, or the size-limit error past the address space |
| Cursors.Cursor.ZeroFillGap | wincode/src/io/cursor.rs:318-329 | the gap is zeroed in spare capacity, the contents stay |
| Cursors.Cursor.PrepareWrite | wincode/src/io/cursor.rs:339-345 | room for the whole write and a zeroed gap, with contents and position unchanged, or the size-limit error |
| Cursors.Cursor.Write | wincode/src/io/cursor.rs:367-377 | the contents become the overlay of the written bytes; refused only past the address space, then unchanged |
| Cursors.Cursor.SetPosition | wincode/src/io/cursor.rs:80-82 | seeking anywhere leaves the contents alone |
| Cursors.Cursor.CopyAndAdvance | wincode/src/io/cursor.rs:352-375 | moving the length over the bytes just written exposes initialised bytes only |
| Cursors.Cursor.AsTrustedFor | wincode/src/io/cursor.rs:379-389 | opening a window changes nothing a user of the vector can see |
| Cursors.Cursor.WriteInWindow | wincode/src/io/cursor.rs:412-436 | an unlooked write inside the window is an overlay, and the length covers initialised bytes only |
| Cursors.Run | wincode/src/io/cursor.rs:287-436 | over any run of writes, seeks and windows, used or abandoned, the contents are the simple overlay and the length never covers an uninitialised byte |
| DropGuards.EachOnce | wincode-derive/src/schema_read.rs:111-170 | a balanced ledger means each value built is alive or was dropped, exactly once |
| DropGuards.DropFields | wincode-derive/src/schema_read.rs:111-135 | the guard of a struct or tuple drops the initialised fields, the last one first |
| DropGuards.DropSlice | wincode/src/schema/containers.rs:313-324 | the guard of a slice drops the initialised elements |
| DropGuards.ReadInPlace | wincode-derive/src/schema_read.rs:65-78 | a failing field's values are dropped first, then the fields left initialised, in reverse; for no number of fields the macro admits does the counter overflow, and it always has an arm |
| DropGuards.CounterFits | wincode-derive/src/schema_read.rs:136-142 | the counter type is the smallest of the four that can count the fields short of the last |
| DropGuards.FillElems | wincode/src/schema/containers.rs:745-764 | a failure drops every element built so far exactly once, a success none |
| DropGuards.ReadLocals | wincode-derive/src/schema_read.rs:230-262 | when a later field fails, the earlier locals are dropped exactly once |
| DropGuards.ReadVec | wincode/src/schema/impls.rs:554-580 | the same for a vector and its buffer |
| DropGuards.ReadBox | wincode/src/schema/impls.rs:914-935 | the same for a box, whose memory is freed on failure |
| DropGuards.ReadEnum | wincode-derive/src/schema_read.rs:222-292 | the same for the fields of a variant, read into locals |
| DropGuards.ReadMap | wincode/src/schema/impls.rs:1268-1273 | the same for a map, where a repeated key drops the new key and the value replaced |
| DropGuards.InsertEntry | wincode/src/schema/impls.rs:1268-1273 | inserting an entry loses neither key nor value: what is not in the map was dropped |
| DropGuards.ReadDefault | wincode/src/schema/adapter.rs:195-204 | falling back to the default keeps the balance of what the failed read had built |
| DropGuards.ReadDiscard | wincode/src/schema/adapter.rs:291-298 | the discarded value is dropped once |
| DropGuards.ReadDiscardSeq | wincode/src/schema/adapter.rs:401-420 | every discarded element is dropped once |
| DropGuards.ReadObj | wincode-derive/src/schema_read.rs:111-195 | at any depth of nesting and for every input, a failed read drops every value it built exactly once, and a successful one drops none that the schema does not discard and returns a value with exactly the parts its type demands: every field, every element, keys and values in turn |
| DropGuards.ReadStruct | wincode-derive/src/schema_read.rs:178-195 | the guard is forgotten only once every declared field is there |
| DropGuards.ReadElems | wincode/src/schema/containers.rs:731-764 | a success, in bulk or one by one, is exactly as many elements as were asked for, each complete |
| BitSets.SetBitBits | wincode-derive/src/uninit_builder.rs:197-200 | setting a bit sets that bit and no other |
| BitSets.FullSet | wincode-derive/src/uninit_builder.rs:119-125 | the full mask is the only set of that many bits with all of them |
| UninitBuilders.FullMask | wincode-derive/src/uninit_builder.rs:119-125 | the mask is all ones for every number of fields, the bit width included, without overflow |
| UninitBuilders.Builder.Mark | wincode-derive/src/uninit_builder.rs:272-277 | exactly one mark is added, and every marked field is present |
| UninitBuilders.Builder.WriteField | wincode-derive/src/uninit_builder.rs:226-236 | the field holds the value and is marked, all other fields and marks stay |
| UninitBuilders.Builder.ReadField | wincode-derive/src/uninit_builder.rs:238-258 | success marks the field; failure leaves marks as they are and every marked field initialised |
| UninitBuilders.Builder.IsInit | wincode-derive/src/uninit_builder.rs:140-149 | true exactly when every field is marked |
| UninitBuilders.Builder.Drop | wincode-derive/src/uninit_builder.rs:82-110 | exactly the marked fields are dropped, each once, in reverse declaration order |
| UninitBuilders.Builder.Finish | wincode-derive/src/uninit_builder.rs:171-180 | the builder is forgotten, and with every field marked every field is present |
| UninitBuilders.Builder.EndScope | wincode-derive/src/uninit_builder.rs:82-110 | at the end of its scope the builder drops exactly the marked fields, each once, in reverse declaration order, and nothing once finished |
| UninitBuilders.Run | wincode-derive/src/uninit_builder.rs:81-279 | over any run that never reads a marked field again, the builder tracks exactly the fields marked, all of them present |
| BitVecs.BitsSize | wincode/src/schema/external/bv.rs:41-57 | the announced size of a bit vector is what it writes, in both modes |
| BitVecs.BitsOnTheWire | wincode/src/schema/external/bv.rs:59-84 | no bits are a zero byte, others a one and the boxed slice of the blocks in use; the number of bits follows as a `u64` |
| BitVecs.BitsBack | wincode/src/schema/external/bv.rs:59-147 | every bit vector written, strictly or leniently, is accepted and keeps its declared bits, despite surplus blocks and dirty padding |
| BitVecs.StrictReproduces | wincode/src/schema/external/bv.rs:89-147 | in strict mode with fixed-width integers, re-encoding an accepted bit vector gives exactly the bytes consumed |
| BitVecs.LenientAccepts | wincode/src/schema/external/bv.rs:125-147 | the lenient reader accepts a storage exactly when the declared bits fit, and keeps them |
| BitVecCode.WriteBits | wincode/src/schema/external/bv.rs:59-84 | the writer receives exactly the encoding, the blocks through a window if they are static |
| BitVecCode.WriteBlocks | wincode/src/schema/external/bv.rs:68-81 | the blocks in use fill one window with their encodings, or are written one by one |
| BitVecCode.ReadStorage | wincode/src/schema/external/bv.rs:90-101 | the tag decides between no storage and a boxed slice, empty ones being refused in strict mode |
| BitVecCode.ReadBits | wincode/src/schema/external/bv.rs:89-147 | value, error and remaining input are those of the decoding function |
| UniqueKeys.CapacityIsLeast | wincode/src/len.rs:29-38 | the cap is the smaller of the length and 256 to the power of the key size, for every length |
| UniqueKeys.KeysFitCapacity | wincode/src/len.rs:18-38 | decoding any number of entries never yields more distinct keys than the capacity reserved: for types with no more values than states of their memory, for static keys no larger on the wire than in memory, and for keys of a word or more |
| UniqueKeys.FiniteKeys | wincode/src/len.rs:18-38 | distinct keys are no more than the type has values, counted through options, arrays, structs and enums |
| UniqueKeys.Numbered | wincode/src/len.rs:18-38 | every number below the count is that of a value of the type, so the count is exact |
| UniqueKeys.FewScalars | wincode/src/len.rs:18-38 | integers, booleans and characters have no more values than states of their memory |
| UniqueKeys.FewVariants | wincode/src/len.rs:18-38 | an enum without fields has no more values than states of its memory exactly when its variants are no more than those |

## Left out

- Reads.Read: does not model `DefaultOnEmptyRead`, because the default leaves the reader where the failed read stopped, which differs between the paths; `Records.ReadRecord` models it for the trailing fields of a record, the use its documentation names.
- Records.ReadRecord: does not say where the reader stands after a default taken in the middle of the input; `Records.ReadOptionalField` gives the value and the error there too.
- DropGuards.ReadObj: does not compute which inputs fail; it covers every pattern of failures, lengths and variants, so the link to `Reads.Read` is that both follow the same schema.
- UninitBuilders.Run: does not cover runs that read a marked field again, which the documentation of the generated methods warns about.
- UniqueKeys.KeysFitCapacity: that a type has no more values than states of its memory is a condition on the layout the schema carries, `FewValues`, which Rust guarantees and the model does not derive for options, tuples and enums with fields.
- Writes.Write: does not say what happens to memory once a window has wrapped; the writes behind it are out of bounds. Lengths, which in the source are `usize`, are naturals here.
- Codec.Decode: what the windowed read says of a schema that is not `Roomy` is not what the code does, which reads out of bounds there; nothing is claimed of it.
- Cursors.Run: does not model allocation failure or capacity panics.
- Borrowed reads, `&mut` slices as readers, lifetimes, provenance and alignment checks, contexts and variance assertions belong to the type system and are not part of this model.
- The `std::io` adapters, buffered readers and writers, the cursors over fixed buffers, the appending `Vec<u8>` writer and the default trusted wrapper with its no-op `finish` repeat what the slice and the vector cursor do.
- The derive macros are modelled by the code they generate, not as token transformations.
- Floats, addresses, `NonZero`, cells, locks, `Cow`, `Duration`, ranges, `FromInto` and the collection adapters add no case of their own: they are structs, enums or sequences with a final conversion.
- A unit variant is a variant without fields; the code opens no window for it, the model one of size zero.
- In-place truncation of a bit vector is modelled by its result.
- Types whose destructor does nothing are treated like all others in the drop ledger; the order in which a map drops its entries is not modelled.
- The external wrappers around other crates delegate to the sequence code and are left out, except `bv`.
