# nanopb: a verified model of the Protocol Buffers encoder and decoder

nanopb 0.3.9.6 is the C library under `LidoraClient/Pods/nanopb` that turns C structs into
Protocol Buffers messages and back, driven by tables of field descriptors. This project models
its encoder (`pb_encode.c`), its decoder (`pb_decode.c`) and the field iterator they share
(`pb_common.c`), for buffer streams, static allocation and 64-bit support, and proves what the
library is for: a message that was written is read back, whatever else is on the wire.

The model has two layers.

* **Specification.** `Encode` and `Decode` say, as functions, which bytes a struct becomes and which
  struct a run of bytes leaves, branch for branch as in the C code, with its errors. A struct is a
  sequence of typed slots (`Message`); a descriptor table is a sequence of `Field`s, recursive
  through submessages. The theorems are about these functions: `RoundTrip` (decode after encode),
  `NormalForm` (parse, print, parse), `Elision` (proto3 fields left out), `Compatibility` (unknown
  records, merging), `Packing`, `Framing`, `Required` (what a run touches and insists on), `Order` (records
  that commute), `Members` (defaults, submessages and oneofs, told from the table entries), `WireFormat`
  (the bytes, whoever reads them), and `Varint` and `ScalarLaws` below them.
* **The code.** `OutputStream.OStream`, `InputStream.IStream` and `FieldIter.Iter` are classes with
  the fields of `pb_ostream_t`, `pb_istream_t` and `pb_field_iter_t`. Their methods have the loops,
  substreams, bit masks, cursors and in-place updates of the C functions, and each is proved to emit
  exactly the bytes of the specification (`OStream.Emitted`), or to succeed exactly when the
  specification parses and then to stop exactly where it stops (`IStream.Took`). Both promises cover
  failing calls too: what was written stays, nothing outside the buffer's room is written, nothing
  behind the end of the input is read, and the struct and the cursor a failing decoder leaves are those
  that `Effects` computes. Termination is part of every method's proof, for any input.

Results that came out other than the library's documentation or first sight suggest:

* A struct is taken back exactly when it is `Sendable`: strings are terminated inside their buffer
  (the encoder writes an unterminated full buffer, the decoder wants room for the NUL) and packed
  arrays and submessages are shorter than 2^32 bytes (the encoder writes a 64-bit length, the decoder
  reads a 32-bit one).
* `pb_decode_varint32_eof` keeps `bitpos` in a `uint_fast8_t`. Taken as 8 bits it wraps from the 38th
  byte on: up to 37 bytes the decoder reads the number modulo 2^32 (`Varint.Acc32IsMod`), beyond that
  exactly when no wrapped byte adds a bit (`Varint.Acc32Exact`); at every length from 38 on there are
  varints where one does (`Varint.BitposWraps`).
* It also accepts some numbers above 2^63 that are not negative int32 values, such as 2^63 + 2^31
  (`Varint.Varint32High`).
* In an empty table `pb_field_iter_find` "finds" tag 0 at the terminator, whose type reads as a required
  bool. Records with tag 0 are skipped exactly when the table is not empty (`Compatibility.TagZero`).
* Messages merge by concatenation exactly unless the second goes on with the fixed count field that the
  first ended with (`Compatibility.MergeByConcatenation`).
* `pb_field_set_to_default` does not set the items of a fixed count field, so a struct decoded from a
  message without that field holds what the memory held. The model calls such items indeterminate; that
  a decoded struct can be printed and parsed again holds if there are none
  (`NormalForm.ParsePrintParse`), and a message brings all items of the field or none
  (`Required.FixedAllOrNothing`).
* A packed array with data left over, because it is full or an item is wrong, is an error that leaves its
  substream open: the bytes of the array are counted as read, but the cursor stays in front of them. For
  every call, accepted or not, cursor and bytes left add up to the end of the input exactly when the
  specification loses nothing (`Effects.LostRun`, `IStream.DecodeNoInit`); `Effects.OverflowLosesTwo` is
  a message that loses two bytes.
* A full repeated field counts an item before refusing it. At a capacity of the maximum of `pb_size_t` the
  count wraps, and the array is left empty (`Effects.RefusedItems`).
* Only the first 64 required fields are checked (`Required.RequiredPastLimit`, `Required.RequiredLimit`).

The width of `pb_size_t` is a constant without a value, so everything holds for 1, 2 and 4 bytes.
`FieldOk` and `TableOk` say which tables are meant: those the generator writes, with distinct tags
from 1 to 2^29 - 1, sizes that fit `pb_size_t`, integer fields of 1, 2, 4 or 8 bytes, and default
values only where the generator puts them (not on proto3 fields).

## Model

| member | source | states |
|---|---|---|
| RoundTrip.MessageRoundTrip | LidoraClient/Pods/nanopb/pb_encode.c:528-550 | Decoding what was encoded succeeds exactly when the struct is sendable, consumes everything, and gives the struct back with the contents of absent fields set to their defaults: every label, packed and unpacked arrays, fixed arrays, oneofs, nested submessages. |
| RoundTrip.RecordsRoundTrip | LidoraClient/Pods/nanopb/pb_decode.c:943-1021 | The same for the record loop with anything behind the message: it reaches the bytes behind it with every required field seen and no fixed array half done, or fails if the struct is not sendable. |
| RoundTrip.FieldsRoundTrip | LidoraClient/Pods/nanopb/pb_encode.c:534-547 | Invariant of the walk over the table: the records of the remaining fields turn defaults into their normal form one field at a time. |
| RoundTrip.ValueRoundTrip | LidoraClient/Pods/nanopb/pb_decode.c:1503-1525 | A field value comes back exactly when it is sendable; a submessage must start from its defaults. |
| RoundTrip.ItemsRoundTrip | LidoraClient/Pods/nanopb/pb_encode.c:209-232 | Unpacked items, one record each, extend the array in order and are rejected when one of them is not sendable. |
| RoundTrip.PackedRoundTrip | LidoraClient/Pods/nanopb/pb_decode.c:427-452 | The packed loop of the decoder reads back all packed items and stops at the end of the substream. |
| RoundTrip.DefaultMessageAt | LidoraClient/Pods/nanopb/pb_decode.c:836-919 | The default struct holds, for every field, the default of that field; the items of a fixed array, which the code does not set, are indeterminate. |
| ScalarLaws.ScalarRoundTrip | LidoraClient/Pods/nanopb/pb_decode.c:1318-1548 | Every scalar comes back, except exactly a string that fills its buffer. |
| ScalarLaws.IntRoundTrip | LidoraClient/Pods/nanopb/pb_encode.c:776-833 | Signed, unsigned and zigzag integers of 1, 2, 4 and 8 bytes come back. |
| ScalarLaws.IntRead | LidoraClient/Pods/nanopb/pb_decode.c:1329-1412 | For every varint, in any spelling, which value an integer field takes from it, and that all others are rejected. |
| ScalarLaws.SignedNarrowing | LidoraClient/Pods/nanopb/pb_decode.c:1343-1361 | A plain signed field takes the one value of its width that is congruent to the varint modulo 2^32 (2^64 for 64-bit fields), if there is one. |
| ScalarLaws.FixedRoundTrip | LidoraClient/Pods/nanopb/pb_encode.c:835-850 | 32-bit and 64-bit fixed fields come back through their little-endian bytes. |
| ScalarLaws.BytesRoundTrip | LidoraClient/Pods/nanopb/pb_decode.c:1431-1548 | Bytes, strings and fixed-length bytes come back exactly when they lie in their buffer, a string with its NUL. |
| ScalarLaws.UnterminatedString | LidoraClient/Pods/nanopb/pb_encode.c:875-899 | Every string that fills its buffer is encoded, and rejected by the decoder. |
| ScalarLaws.DelimitedRoundTrip | LidoraClient/Pods/nanopb/pb_encode.c:709-715 | A length prefix is read back exactly when it is below 2^32. |
| Scalars.ZigZagBijection | LidoraClient/Pods/nanopb/pb_encode.c:630-639 | The zigzag mapping is a bijection between int64 and uint64. |
| Scalars.ZigZagOrder | LidoraClient/Pods/nanopb/pb_encode.c:630-639 | It numbers the integers 0, -1, 1, -2, 2 and so on. |
| Decode.CString | LidoraClient/Pods/nanopb/pb_decode.c:1498-1500 | What the decoder keeps of a string is exactly the bytes in front of the first NUL. |
| Varint.VarintRoundTrip | LidoraClient/Pods/nanopb/pb_decode.c:255-275 | Every uint64 is read back from its encoding with anything behind it, and exactly its bytes are consumed. |
| Varint.EncodeIsVarint | LidoraClient/Pods/nanopb/pb_encode.c:608-628 | The encoding has the continuation bit on all bytes but the last and spells the number. |
| Varint.EncodeIsMinimal | LidoraClient/Pods/nanopb/pb_encode.c:608-628 | No varint that spells the number is shorter. |
| Varint.EncodeLength64 | LidoraClient/Pods/nanopb/pb_encode.c:611-619 | No uint64 needs more than the ten bytes of the buffer. |
| Varint.DecodersAgree | LidoraClient/Pods/nanopb/pb_decode.c:187-275 | On any input both varint decoders accept, the 32-bit one reads the 64-bit result modulo 2^32 and stops at the same byte. |
| Varint.Varint32RoundTrip | LidoraClient/Pods/nanopb/pb_decode.c:187-247 | On canonical encodings below 2^63 the 32-bit decoder succeeds exactly below 2^32 and returns the number. |
| Varint.NegativeInt32 | LidoraClient/Pods/nanopb/pb_decode.c:221-230 | The ten bytes of a negative int32 are read as its low 32 bits. |
| Varint.Varint32High | LidoraClient/Pods/nanopb/pb_decode.c:213-242 | Of the numbers from 2^63 on, in canonical form, the 32-bit decoder accepts exactly those with bit 31 set and each of the four groups of bits 35 to 62 all ones or all zeros, and reads their low 32 bits. |
| Varint.Acc32IsMod | LidoraClient/Pods/nanopb/pb_decode.c:213-236 | Up to 37 bytes the accumulator is the number spelled so far modulo 2^32. |
| Varint.Acc32Exact | LidoraClient/Pods/nanopb/pb_decode.c:213-236 | For varints of any length the accumulator is that number exactly when no byte past the 37th whose position has wrapped below 32 adds a bit. |
| Varint.BitposWraps | LidoraClient/Pods/nanopb/pb_decode.c:213-236 | 37 is the limit: of every length from 38 bytes on there is a varint that is accepted and read as a number it does not spell. |
| InputStream.Fold32Overflow | LidoraClient/Pods/nanopb/pb_decode.c:221-230 | A varint that begins with a byte that overflows is an error, whatever follows. |
| InputStream.SplitAfter | LidoraClient/Pods/nanopb/pb_decode.c:278-287 | Bytes with the continuation bit are part of the varint, wherever it ends. |
| NormalForm.ParsePrintParse | LidoraClient/Pods/nanopb/pb_decode.c:1075-1087 | For any bytes that are accepted the result is within all capacities; if no fixed array below was left unreceived (as when the tables have none) it can be encoded, and decoding that encoding gives the same struct back. |
| NormalForm.NothingMissing | LidoraClient/Pods/nanopb/pb_decode.c:858-869 | Without fixed arrays, down through submessages, nothing in a decoded struct is indeterminate. |
| NormalForm.NoInitKeeps | LidoraClient/Pods/nanopb/pb_decode.c:925-1073 | For any bytes that are accepted, the struct keeps its type, every array stays within its capacity, every string and bytes value within its buffer, and every `which` names a member of its oneof; at most items of fixed arrays are indeterminate. |
| NormalForm.KeptComesBack | LidoraClient/Pods/nanopb/pb_encode.c:341-426 | A struct in normal form whose encoding is below 2^32 bytes is encoded and comes back unchanged. |
| NormalForm.MessageKeptNormal | LidoraClient/Pods/nanopb/pb_encode.c:341-426 | On a struct in normal form the normalization of absent fields changes nothing. |
| NormalForm.FieldKeeps | LidoraClient/Pods/nanopb/pb_decode.c:731-757 | One record of any field keeps all members within their capacities. |
| NormalForm.DefaultMessageKept | LidoraClient/Pods/nanopb/pb_decode.c:908-919 | The default struct is in normal form, its fixed arrays being indeterminate. |
| NormalForm.ScalarKeeps | LidoraClient/Pods/nanopb/pb_decode.c:1329-1548 | A scalar that was read, from any bytes, fits its member. |
| Elision.ElisionSound | LidoraClient/Pods/nanopb/pb_encode.c:240-337 | A proto3 value that is left out equals what the decoder sets by default, through nested submessages. |
| Elision.ElidedIffEmpty | LidoraClient/Pods/nanopb/pb_encode.c:240-337 | A struct passes the default check exactly when it encodes to nothing, has no fixed array and no `which` that names no member. |
| Elision.NothingWritten | LidoraClient/Pods/nanopb/pb_encode.c:296-308 | If the check passes for all fields, nothing is written and the normal form is the default struct. |
| Elision.SingularComesBack | LidoraClient/Pods/nanopb/pb_encode.c:355-396 | A proto3 field comes back with its value whether it is written or left out. |
| Elision.NormalOneofAt | LidoraClient/Pods/nanopb/pb_encode.c:410-419 | The normal form of a oneof is the member that is set, or unset when none is. |
| Compatibility.ForwardCompatible | LidoraClient/Pods/nanopb/pb_decode.c:957-986 | A complete record with an unknown tag, its key and length in any spelling, at any record boundary changes neither the result nor the struct. |
| Compatibility.UnknownRecordIgnored | LidoraClient/Pods/nanopb/pb_decode.c:957-986 | The same for the record loop, from any state. |
| Compatibility.SkipIsExact | LidoraClient/Pods/nanopb/pb_decode.c:321-331 | Skipping consumes the data of one record, whatever follows, exactly if it is complete: which bytes are is stated for each wire type. |
| Compatibility.RecordsExtend | LidoraClient/Pods/nanopb/pb_decode.c:943-1021 | A run that ends at the end of its input goes on as if it had begun in that state; a run stopped by a zero tag ignores what follows. |
| Compatibility.MergeByConcatenation | LidoraClient/Pods/nanopb/pb_decode.c:925-1073 | Decoding a concatenation is decoding the parts one after the other into the same struct, exactly unless the second part goes on with the fixed array that the first ended with. |
| Compatibility.RecordsAfter | LidoraClient/Pods/nanopb/pb_decode.c:925-1009 | Without such a clash a run behind an earlier message does what it does alone, plus the required fields seen before. |
| Compatibility.RunsClash | LidoraClient/Pods/nanopb/pb_decode.c:991-1027 | With one, a run that would succeed alone fails. |
| Compatibility.FixedCountDoesNotMerge | LidoraClient/Pods/nanopb/pb_decode.c:991-1027 | The smallest case of the clash: one fixed array of one bool, and a message that is accepted once but not twice in a row. |
| Compatibility.TagZero | LidoraClient/Pods/nanopb/pb_common.c:78-95 | Records with tag 0 are skipped like unknown ones exactly when the table is not empty. |
| Compatibility.EmptyTableTagZero | LidoraClient/Pods/nanopb/pb_common.c:78-95 | On the empty table the message `05 00 00 00 00` is read as a bool and a terminator, and two bytes are left. |
| Packing.PackedAndUnpackedAgree | LidoraClient/Pods/nanopb/pb_decode.c:424-464 | Any split of a list into packed chunks and single items appends the same items, to counted and fixed arrays, and is accepted exactly when they fit the array. |
| Packing.PackedOverflow | LidoraClient/Pods/nanopb/pb_decode.c:436-448 | A packed chunk with more items than there is room for is an error. |
| Framing.FramingRoundTrip | LidoraClient/Pods/nanopb/pb_decode.c:1104-1117 | A stream of delimited messages is read back as the same list, exactly when each message can be. |
| Framing.DelimitedMessageRoundTrip | LidoraClient/Pods/nanopb/pb_encode.c:552-555 | A delimited message comes back, whatever follows it, exactly when it is sendable and below 2^32 bytes. |
| Framing.NullTerminatedRoundTrip | LidoraClient/Pods/nanopb/pb_encode.c:557-565 | A zero-terminated message decodes to itself and the decoder stops right behind the zero. |
| Framing.RestOfFrameDropped | LidoraClient/Pods/nanopb/pb_decode.c:1104-1117 | What stands in a frame behind a zero byte is dropped with the frame. |
| Required.RequiredIffOnWire | LidoraClient/Pods/nanopb/pb_decode.c:1030-1070 | With all records decoded and fixed arrays complete, success is exactly that each of the first 64 required fields was met on the wire. |
| Required.RunFrame | LidoraClient/Pods/nanopb/pb_decode.c:943-1021 | A run, accepted or not, leaves every member alone that no record names; one that does not fail marks exactly the required fields that were met. |
| Required.UnnamedUntouched | LidoraClient/Pods/nanopb/pb_decode.c:925-1073 | Of an accepted message, members no record names come out as they went in. |
| Required.LeftAlone | LidoraClient/Pods/nanopb/pb_decode.c:925-1073 | Accepted or not: whatever a run leaves, members no record names are as they were. |
| Required.WrittenIsReached | LidoraClient/Pods/nanopb/pb_decode.c:943-1021 | What a failing run leaves: all records in front of the one that fails, and only the slot of that one may differ. |
| Required.RequiredPastLimit | LidoraClient/Pods/nanopb/pb_decode.c:1012-1017 | A required field is checked exactly when fewer than 64 required fields stand before it. |
| Required.RequiredLimit | LidoraClient/Pods/nanopb/pb_decode.c:1048-1049 | With n required bools in the table, the first k of them are enough exactly when k is n or at least 64. |
| Required.FixedAllOrNothing | LidoraClient/Pods/nanopb/pb_decode.c:988-1028 | An accepted message brings all items of a fixed array, or has no record of it and leaves it as it was. |
| RequiredMask.MarkField | LidoraClient/Pods/nanopb/pb_decode.c:1012-1017 | Setting the bit of a field in the mask adds the field to the set, and fields past the 64th leave the mask right. |
| RequiredMask.FirstBitsMeansSeen | LidoraClient/Pods/nanopb/pb_decode.c:1051-1069 | The first bits are set exactly when each of the first 64 required fields is in the set. |
| RequiredMask.WordCheck | LidoraClient/Pods/nanopb/pb_decode.c:1053-1068 | Comparing a word with `allbits`, shifted for the last one, tests exactly the bits of its fields. |
| FieldIter.ExtentIsSize | LidoraClient/Pods/nanopb/pb_common.c:44-63 | The size that the iterator computes from an entry is the size of the struct member the macros wrote it for: plain members, arrays (item size times number) and pointers. |
| FieldIter.RelativeLayout | LidoraClient/Pods/nanopb/pb.h:394-457 | For tables the macros write, offsets relative to the end of the previous member lead to the offsets of the struct, across unions, arrays and pointers. |
| FieldIter.Iter.constructor | LidoraClient/Pods/nanopb/pb_common.c:8-18 | The iterator starts at the first field. |
| FieldIter.Iter.Next | LidoraClient/Pods/nanopb/pb_common.c:20-76 | One field further, with data and size pointers, slot and required index right, or back to the first field and false; which slots are shared is `FieldIter.UnionOfFields`. |
| FieldIter.Iter.Find | LidoraClient/Pods/nanopb/pb_common.c:78-95 | From any position the search succeeds exactly when a field other than an extension has the tag (or, on an empty table, the tag is 0), within one cycle, and comes back to its place otherwise. |
| FieldIter.UnionOfNeighbours | LidoraClient/Pods/nanopb/pb_common.c:44-66 | Told from the entries alone: an entry with the union marker has slot, data and size of the oneof member before it, every other has its own. |
| FieldIter.UnionOfFields | LidoraClient/Pods/nanopb/pb_common.c:44-50 | Two fields share a slot, and data and size, exactly if all entries from the second to the last of them have the marker. |
| Members.DefaultMembers | LidoraClient/Pods/nanopb/pb_decode.c:836-919 | Every member of the default struct holds what its entry says: the default value copied from it, or false, 0, no bytes, zero bytes; flags off, arrays empty, oneofs unset; submessages in the same way. |
| Members.MissingIsDefault | LidoraClient/Pods/nanopb/pb_decode.c:858-888 | And so does every member that an accepted message has no record of. |
| Members.IntoHeldMessage | LidoraClient/Pods/nanopb/pb_decode.c:1503-1525 | A required or optional submessage is decoded into the struct that the member holds. |
| Members.SubmessagesMerge | LidoraClient/Pods/nanopb/pb_decode.c:1515-1520 | In two records it is merged: members the second does not name keep what the first brought, and one record with both contents does the same, unless they clash over a fixed array. |
| Members.NewMessages | LidoraClient/Pods/nanopb/pb_decode.c:466-475 | The submessage of a oneof, and every new item of an array, starts from the defaults instead. |
| Members.FailsInHeldMessage | LidoraClient/Pods/nanopb/pb_decode.c:1503-1525 | A failing record inside leaves the submessage as far as it was written, and loses the bytes lost inside. |
| Members.OnlyLastIsSet | LidoraClient/Pods/nanopb/pb_decode.c:466-475 | Of the members of one oneof, by the markers in the table, only the one received last is set. |
| Members.MemberComesBack | LidoraClient/Pods/nanopb/pb_encode.c:341-426 | What a round trip brings back, label by label: flags, values, items and the set member of a oneof. |
| WireFormat.KeyOfField | LidoraClient/Pods/nanopb/pb_encode.c:669-707 | The key of a record is one varint that spells eight times the tag plus 0, 1, 2 or 5 for the type of the field. |
| WireFormat.SkipByNumber | LidoraClient/Pods/nanopb/pb_decode.c:321-331 | Skipping takes a varint, eight bytes, a length and its bytes, or four bytes, for the wire types 0, 1, 2 and 5, and refuses others. |
| WireFormat.ValueSkipped | LidoraClient/Pods/nanopb/pb_decode.c:321-331 | Skipping by the wire type of a field takes exactly the value that was written, unless a length does not fit 32 bits. |
| WireFormat.UnknownFieldSkipped | LidoraClient/Pods/nanopb/pb_decode.c:957-986 | Whatever the encoder writes for a field, a reader without its tag passes over whole, unless a length does not fit 32 bits, which is an error. |
| WireFormat.HeadsOfMessage | LidoraClient/Pods/nanopb/pb_encode.c:528-550 | Read without any table, a message is the records of its members in the order of the table, with the tags, wire types and number of records that the members call for. |
| WireFormat.ArrayIsPacked | LidoraClient/Pods/nanopb/pb_encode.c:156-205 | An array of numbers or bools is one record of wire type 2, even of one item; more items than the capacity are refused. |
| WireFormat.PackedInOrder | LidoraClient/Pods/nanopb/pb_encode.c:197-204 | Items are packed in order, each as it is written alone. |
| WireFormat.ItemsInOrder | LidoraClient/Pods/nanopb/pb_encode.c:208-232 | Items that are not packed are records in order. |
| WireFormat.SignedBytes | LidoraClient/Pods/nanopb/pb_encode.c:776-797 | A signed number of any width is one varint that spells it modulo 2^64: ten bytes for every negative one. |
| WireFormat.UnsignedBytes | LidoraClient/Pods/nanopb/pb_encode.c:799-833 | Unsigned numbers are spelled as they are, zigzag ones as 0, -1, 1, -2, 2 and so on. |
| WireFormat.OtherWidth | LidoraClient/Pods/nanopb/pb_encode.c:776-833 | What an integer field writes, a field of the same kind and any width the number fits reads as the same number. |
| WireFormat.FixedBytes | LidoraClient/Pods/nanopb/pb_encode.c:641-666 | Fixed-width numbers are written lowest byte first. |
| WireFormat.BoolOnWire | LidoraClient/Pods/nanopb/pb_decode.c:1318-1327 | A bool is written as 0 or 1, and every number but 0 is read as true. |
| WireFormat.BytesOnWire | LidoraClient/Pods/nanopb/pb_encode.c:852-912 | Bytes and strings are written behind their length; bytes that do not fit beside their size member are refused. |
| WireFormat.BytesRead | LidoraClient/Pods/nanopb/pb_decode.c:1431-1548 | A bytes member needs room for its size of `PB_SIZE_WIDTH` bytes, a string for its NUL; a member of fixed length takes just that, and no bytes as zeros. |
| WireFormat.LeftOutIffDefault | LidoraClient/Pods/nanopb/pb_encode.c:240-337 | A proto3 field is left out exactly if it holds false, 0 or no bytes, and a submessage exactly if it has nothing to write. |
| OutputStream.VarintGroups | LidoraClient/Pods/nanopb/pb_encode.c:608-628 | The loop fills its ten-byte buffer with exactly the encoding. |
| OutputStream.OStream.Sizing | LidoraClient/Pods/nanopb/pb_encode.c:567-572 | A stream without a callback: it stores nothing. |
| OutputStream.OStream.FromBuffer | LidoraClient/Pods/nanopb/pb_encode.c:86-101 | A stream over part of a buffer. |
| OutputStream.OStream.BufWrite | LidoraClient/Pods/nanopb/pb_encode.c:74-84 | The bytes are stored at the cursor, no others change, and the cursor moves behind them. |
| OutputStream.OStream.Write | LidoraClient/Pods/nanopb/pb_encode.c:103-124 | The bytes are emitted exactly when they fit. |
| OutputStream.OStream.EncodeVarint | LidoraClient/Pods/nanopb/pb_encode.c:608-628 | Emits the encoding. |
| OutputStream.OStream.EncodeSVarint | LidoraClient/Pods/nanopb/pb_encode.c:630-639 | Emits the encoding of the zigzag number. |
| OutputStream.OStream.EncodeFixed32 | LidoraClient/Pods/nanopb/pb_encode.c:641-650 | Emits the four little-endian bytes. |
| OutputStream.OStream.EncodeFixed64 | LidoraClient/Pods/nanopb/pb_encode.c:653-666 | Emits the eight little-endian bytes. |
| OutputStream.OStream.EncodeTag | LidoraClient/Pods/nanopb/pb_encode.c:669-673 | Emits the key of a record. |
| OutputStream.OStream.EncodeTagForField | LidoraClient/Pods/nanopb/pb_encode.c:675-707 | Emits the key with the wire type of the field, the number of which is `WireFormat.KeyOfField`. |
| OutputStream.OStream.EncodeString | LidoraClient/Pods/nanopb/pb_encode.c:709-715 | Emits the length and the bytes. |
| OutputStream.OStream.EncodeScalar | LidoraClient/Pods/nanopb/pb_encode.c:769-912 | Emits the scalar, or fails where its type, size or width is wrong; the bytes are those of `WireFormat.SignedBytes`, `UnsignedBytes`, `FixedBytes`, `BoolOnWire` and `BytesOnWire`. |
| OutputStream.OStream.PackedSize | LidoraClient/Pods/nanopb/pb_encode.c:169-189 | The size of a packed array, by multiplication or by a sizing pass, is the number of bytes its items take. |
| OutputStream.OStream.EncodePacked | LidoraClient/Pods/nanopb/pb_encode.c:162-205 | Emits key, length and items; a sizing stream counts as many. |
| OutputStream.OStream.EncodeArray | LidoraClient/Pods/nanopb/pb_encode.c:147-236 | Emits a repeated field, packed if its type allows, and refuses more items than its capacity. |
| OutputStream.OStream.EncodeSubmessage | LidoraClient/Pods/nanopb/pb_encode.c:717-765 | Emits length and message by a sizing and a writing pass, which agree: "submsg size changed" is never reached. |
| OutputStream.OStream.WriteSubmessage | LidoraClient/Pods/nanopb/pb_encode.c:740-764 | The writing pass fills a substream of exactly the announced size. |
| OutputStream.OStream.EncodeField | LidoraClient/Pods/nanopb/pb_encode.c:341-426 | Emits the record or records of a field, or nothing if it is absent. |
| OutputStream.OStream.EncodeMessage | LidoraClient/Pods/nanopb/pb_encode.c:528-550 | Emits the message; on a sizing stream the count is exactly the size that a writing stream emits. |
| OutputStream.OStream.EncodeDelimited | LidoraClient/Pods/nanopb/pb_encode.c:552-555 | Emits the message behind its length. |
| OutputStream.OStream.EncodeNullTerminated | LidoraClient/Pods/nanopb/pb_encode.c:557-565 | Emits the message and a zero byte. |
| OutputStream.GetEncodedSize | LidoraClient/Pods/nanopb/pb_encode.c:567-576 | The size is the number of bytes of the message, for every encodable message. |
| OutputStream.EncodeToBuffer | LidoraClient/Pods/nanopb/pb_encode.c:86-124 | Exact fit: encoding into n bytes succeeds exactly when the size is at most n, the bytes are the message, and in no case does a byte from index n on change. |
| OutputStream.CheckProto3Default | LidoraClient/Pods/nanopb/pb_encode.c:240-337 | The check, with its loops and iterator, decides the elision predicate. |
| Effects.SuccessfulRun | LidoraClient/Pods/nanopb/pb_decode.c:925-1021 | A run that does not fail loses no bytes and leaves the struct of its last state. |
| Effects.LostNothing | LidoraClient/Pods/nanopb/pb_decode.c:436-449 | Without packed arrays, down through submessages, no call loses bytes, whatever fails. |
| Effects.LeftOverFails | LidoraClient/Pods/nanopb/pb_decode.c:447-448 | A packed array that leaves its substream open is an error. |
| Effects.OverflowLosesTwo | LidoraClient/Pods/nanopb/pb_decode.c:427-452 | With one bool array of capacity 1 the message `0A 02 01 01` is rejected and loses two bytes, with its first item stored. |
| Effects.TornItemStaysOpen | LidoraClient/Pods/nanopb/pb_decode.c:436-448 | An array that is not full is left open too, by a last item that is cut short. |
| Effects.BadItemCloses | LidoraClient/Pods/nanopb/pb_decode.c:436-452 | A bad item with nothing behind it does not: the substream is closed. |
| Effects.ScalarStopIsRest | LidoraClient/Pods/nanopb/pb_decode.c:1318-1429 | Where a packable scalar decoder stops is, when it accepts, where its parse ends. |
| Effects.ItemsGrow | LidoraClient/Pods/nanopb/pb_decode.c:424-464 | Accepted or not, items received before stay and none is stored past the capacity, unless an item is refused by a full array. |
| Effects.RefusedItems | LidoraClient/Pods/nanopb/pb_decode.c:460-461 | A full array that refuses an item keeps the others exactly if its capacity is below the maximum of `pb_size_t`; at the maximum its count wraps and it is left empty. |
| Effects.FlagComesFirst | LidoraClient/Pods/nanopb/pb_decode.c:414-475 | A scalar that cannot be read leaves its member marked as set. |
| Effects.UnframedIsKept | LidoraClient/Pods/nanopb/pb_decode.c:1503-1510 | A required or optional submessage whose length cannot be read keeps what it held. |
| Effects.BadItemIsCounted | LidoraClient/Pods/nanopb/pb_decode.c:457-463 | An item that cannot be read, in a record of its own, is counted. |
| Effects.StopsAtOverflow | LidoraClient/Pods/nanopb/pb_decode.c:221-230 | An overflow stops the 32-bit varint loop at once. |
| Effects.StopsAtTen | LidoraClient/Pods/nanopb/pb_decode.c:255-275 | Ten bytes without an end stop the 64-bit varint loop, fewer only at the end of the data. |
| Order.RunLocal | LidoraClient/Pods/nanopb/pb_decode.c:943-1021 | A run over complete records does the same to every state that is alike for their tags, and leaves the rest of it alone. |
| Order.RunsCommute | LidoraClient/Pods/nanopb/pb_decode.c:943-1021 | Complete records commute with complete records of other slots, unless both have fixed count fields. |
| Order.LastOneWins | LidoraClient/Pods/nanopb/pb_decode.c:414-475 | A scalar field that is not repeated holds the value of its last record, in any spelling, whatever came before. |
| InputStream.IStream.Read | LidoraClient/Pods/nanopb/pb_decode.c:87-137 | Bytes are read exactly when there are enough, and the end of the input is never passed. Cursor and bytes left still add up, on failure too. |
| InputStream.IStream.Skip | LidoraClient/Pods/nanopb/pb_decode.c:102-137 | The same with the bytes dropped. Cursor and bytes left still add up, on failure too. |
| InputStream.IStream.DecodeVarint | LidoraClient/Pods/nanopb/pb_decode.c:255-275 | The byte loop is the 64-bit varint parser. Cursor and bytes left still add up, on failure too. |
| InputStream.IStream.DecodeVarint32 | LidoraClient/Pods/nanopb/pb_decode.c:187-247 | The byte loop is the 32-bit varint parser, and stops where the specification stops, on errors too; `eof` means that there was no byte at all. Cursor and bytes left still add up, on failure too. |
| InputStream.IStream.SkipVarint | LidoraClient/Pods/nanopb/pb_decode.c:278-287 | Exactly one varint of any length is skipped. Cursor and bytes left still add up, on failure too. |
| InputStream.IStream.DecodeTag | LidoraClient/Pods/nanopb/pb_decode.c:298-319 | Tag and wire type of the next record; a zero key, or no input, is the end of the message. Cursor and bytes left still add up, on failure too. |
| InputStream.IStream.SkipField | LidoraClient/Pods/nanopb/pb_decode.c:321-331 | Exactly one record of the wire type is skipped. Cursor and bytes left still add up, on failure too. |
| InputStream.IStream.MakeSubstream | LidoraClient/Pods/nanopb/pb_decode.c:372-385 | The child sees exactly the announced bytes, the parent keeps exactly those behind them; on failure cursor and bytes left still add up. |
| InputStream.IStream.CloseSubstream | LidoraClient/Pods/nanopb/pb_decode.c:387-400 | Whatever the child has read, the parent's cursor ends up behind the child's end, with as many bytes left as before. |
| InputStream.IStream.DecodeScalar | LidoraClient/Pods/nanopb/pb_decode.c:1318-1548 | The scalar decoders read what the specification reads and leave what it leaves, packable ones on errors too. Cursor and bytes left still add up, on failure too. |
| InputStream.IStream.DecSubmessage | LidoraClient/Pods/nanopb/pb_decode.c:1503-1525 | A submessage is decoded inside its own length, a required or optional one into what it holds (`Members.SubmessagesMerge`), new items from their defaults; accepted or not the value is exactly what its records have written, and as many bytes are left as lie behind it. Cursor and bytes left then add up but for exactly the bytes the specification loses. |
| InputStream.IStream.PackedLoop | LidoraClient/Pods/nanopb/pb_decode.c:436-448 | Items until the data ends, the capacity is reached or one is wrong; accepted or not, the items and the number of bytes left in the substream are those of the specification. |
| InputStream.IStream.DecodePacked | LidoraClient/Pods/nanopb/pb_decode.c:427-452 | The packed branch; data left over is an error, and leaves the cursor in front of exactly the bytes of the array. |
| InputStream.IStream.DecodeItems | LidoraClient/Pods/nanopb/pb_decode.c:424-464 | The repeated branch appends one item or a packed run, within the capacity; accepted or not, items and count are those of the specification, the count wrapping at the maximum of `pb_size_t`. Cursor and bytes left then add up but for exactly the bytes the specification loses. |
| InputStream.IStream.DecodeSingle | LidoraClient/Pods/nanopb/pb_decode.c:414-475 | Required, optional and oneof fields: accepted or not, the slot is that of the specification, with flag or `which` set and, for a submessage, what its records have written. Cursor and bytes left then add up but for exactly the bytes the specification loses. |
| InputStream.IStream.DecodeFound | LidoraClient/Pods/nanopb/pb_decode.c:988-1020 | A record of a known field changes the struct, the fixed count bookkeeping and the set of required fields as specified; accepted or not, the struct is exactly that of the specification. Cursor and bytes left then add up but for exactly the bytes the specification loses. |
| InputStream.IStream.OneRecord | LidoraClient/Pods/nanopb/pb_decode.c:957-1020 | One record, known or not, with iterator and required mask in step; accepted or not, the struct is exactly that of the specification. Cursor and bytes left then add up but for exactly the bytes the specification loses. |
| InputStream.IStream.RecordLoop | LidoraClient/Pods/nanopb/pb_decode.c:943-1021 | The loop succeeds exactly when every record does, and its mask stands for the set of required fields met; accepted or not, the struct is exactly that of the specification. Cursor and bytes left then add up but for exactly the bytes the specification loses. |
| InputStream.IStream.DecodeNoInit | LidoraClient/Pods/nanopb/pb_decode.c:925-1073 | Succeeds exactly when the specification does, with its rest of the input; accepted or not, the struct is exactly that of the specification, at every depth. Cursor and bytes left then add up but for exactly the bytes the specification loses. |
| InputStream.IStream.DecodeMessage | LidoraClient/Pods/nanopb/pb_decode.c:1075-1087 | The same from the default struct, whatever the struct held. |
| InputStream.IStream.DecodeDelimited | LidoraClient/Pods/nanopb/pb_decode.c:1104-1117 | The same behind a length prefix; accepted or not, as many bytes are left as lie behind the frame, and the cursor is there too exactly when nothing is lost inside. |
| InputStream.CheckRequired | LidoraClient/Pods/nanopb/pb_decode.c:1030-1070 | The check of the mask words, from wherever the iterator stands, succeeds exactly when each of the first 64 required fields was seen. |
| InputStream.CountRequired | LidoraClient/Pods/nanopb/pb_decode.c:1036-1046 | Running the iterator to the end counts all required fields of the table. |
| InputStream.FieldSetToDefault | LidoraClient/Pods/nanopb/pb_decode.c:836-906 | The default of one member, as `Members.DefaultMembers` tells it; items of a fixed array are not set. |
| InputStream.MessageSetToDefaults | LidoraClient/Pods/nanopb/pb_decode.c:908-919 | The iterator loop sets every member to its default, fixed arrays excepted. |

## Left out

- Pointer fields and `PB_ENABLE_MALLOC`, though the client's build defines it: no heap is modelled, `allocate_field`, `decode_pointer_field` and `pb_release` are not part of this model, and `FieldOk` admits static fields only. The iterator covers pointer fields.
- Callback fields, custom stream callbacks and extension fields: foreign code. `pb_istream_t` and `pb_ostream_t` are buffer streams or the sizing stream.
- `PB_WITHOUT_64BIT`, `PB_BUFFER_ONLY`, `PB_OLD_CALLBACK_STYLE`, `PB_NO_ERRMSG` and the error texts: build variants and diagnostics; an error is a plain failure.
- `LidoraChefs/Lidora Chef/Pods/nanopb`: the same library one patch version older.
- The Swift apps, the cloud functions and the other pods: user interface, service calls and thin handlers.
- `pb_decode_delimited_noinit`, `pb_decode_nullterminated` and `pb_decode_bool`: one-line variants of `DecodeDelimited`, `DecodeMessage` and the bool branch of `DecodeScalar`.
- Memory behind the struct: a struct is a sequence of typed slots that a decoder method takes and returns by value, so aliasing is not modelled. After a failed call a scalar that was being written is indeterminate, and an array count past the capacity shows as one indeterminate item more. `DataOffset` and `SizeOffset` say where the slots lie.
- Bytes of a string behind its first NUL, of a bytes value behind its size, of an array behind its count and of the inactive members of a union: they are not part of a value. `strnlen` in the string encoder and the byte loop of the default check are taken as the length of the value.
- Fixed count arrays before any item is received are indeterminate in the model. In C they hold what the memory held, with a zero count over the first bytes, or zeros in a oneof submessage.
- Unbounded counters: `size_t` does not overflow (the counts of type `pb_size_t` do). The round trips ask for encodings below 2^63 bytes, which every object in memory is.
- `uint_fast8_t` is taken as 8 bits wide; `BitposWraps` depends on it, the other results do not use varints that long.
- Shifts and bitwise or are arithmetic on naturals (`Shl`, `Or`), tied together by lemmas in `Bits`; floating point members are their raw bits.
- Structs that do not match their table (a slot of the wrong kind, a `ptr` of NULL in a submessage field): a submessage always has a table, and slots of the wrong kind, which C cannot tell apart, fail.
- Extension fields are an `LType` that tables for decoding and encoding do not contain; the iterator passes over them, and `find_extension_field` is not part of this model.
- Compatibility.MergeByConcatenation: the first message is not ended by a zero tag, behind which the second would not be read.
- NormalForm.ParsePrintParse: a result whose encoding reaches 2^32 bytes can hold a length the decoder cannot read back; the lemma then says that it fails exactly if it is not sendable.
- A oneof submessage that occurs twice is not merged: the code resets it on each occurrence, and so does `DecodeSingle`.
- Wire types are not checked against field types: the code only uses them to detect packed arrays, and so does the model.
