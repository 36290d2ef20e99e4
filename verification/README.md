# KLV parser model

A Dafny model of the KLV (Key-Length-Value) parser of `klv_parser`, a Rust crate that reads SMPTE KLV metadata out of a byte buffer. Each record is:

- a 16-byte key (a SMPTE Universal Label);
- a BER-style length field;
- that many value bytes.

`parse` walks the buffer with a `Parser` cursor. It calls `read_next` while bytes remain. `read_next` calls `get_key`, `get_length` and `get_value` in turn. The long-form length is decoded by `u8s_to_u32` and its two-, three- and four-byte helpers.

The model is pure. A parser is an immutable `Parser(input, cursor)`. Each field reader returns the field it read together with the parser after the read. Every panic of the source is an explicit failure value (`Panics.Failure`), and `parse` returns `Result<seq<Klv>, Failure>`. A failure covers both an `expect` on a `None` and a panic inside a reader or a slice.

The modules follow the source:

- `Wrappers`: `Option` and `Result`.
- `Panics`: the failure values. `Unparsed(field)` stands for the three `expect` calls of `read_next`. `SliceOutOfRange` is a slice past the end of the buffer. `SizeNotTwoToFour` is the panic of `u8s_to_u32`. `TooFewBytes` stands for the `panic!` of each of the three fixed-width helpers. `BadLengthPrefix` is the corrected length reader's refusal and has no counterpart in the source.
- `Bytes`: byte and word types, plus little- and big-endian numerals with their inverses.
- `Convert`: `u8s_to_u32` and the `*_u8s_to_u32` helpers.
- `Reader`: `Parser`, `has_next`, `increment_cursor`, `get_key`, `get_length`, `get_value`.
- `KlvParser`: `Klv`, `read_next`, `parse`, and the `while` loop as a method.
- `Encoding`: encoders for the byte layout the parser accepts. These are the partners the round-trip properties are stated against.
- `LengthProofs` and `ParseProofs`: the properties.

The module's header comment names ISO/IEC 8825-1, the Basic Encoding Rules (lines 9-10), and says that the rest of a long-form prefix counts how many more bytes hold the length (lines 30-31). It gives no byte order; that comes from the standard, which reads the octets most significant first. The code as written differs from that long form, and the model follows the code:

- A prefix byte `b >= 128` selects a slice of `b - 127` bytes.
- That slice starts at the prefix byte itself.
- The slice is read least-significant byte first.
- Only prefixes 0x81..0x83 yield a slice size `u8s_to_u32` accepts.

The corrected reading lives beside the as-written one. The loop takes a `Dialect`. `AsWritten` uses the source's readers. `Standard` uses corrected readers that follow section 8.1.3.5 of ITU-T X.690, the same rules as ISO/IEC 8825-1. They read the count of octets after the prefix, most significant first, and allow an empty value at the end of the buffer. See "Findings".

Main results:

- `ParseProofs.ParseExactly`: `parse` as written succeeds with records `klvs` exactly when `klvs` is well-formed and the buffer is their encodings back to back.
- `ParseProofs.ParseStandardRoundTrip`: with the corrected readers, encoding any well-formed records and parsing gives them back.

## Model

| member | source | states |
|---|---|---|
| Convert.TwoU8sToU32 | src/parser/mod.rs:216-224 | Succeeds exactly when the slice has at least two bytes, giving the little-endian value of the first two bytes (`bytes[0]` least significant); otherwise it fails with the too-small panic |
| Convert.ThreeU8sToU32 | src/parser/mod.rs:226-232 | Succeeds exactly when the slice has at least three bytes, giving the little-endian value of the first three; otherwise it fails with the too-small panic |
| Convert.FourU8sToU32 | src/parser/mod.rs:234-245 | Succeeds exactly when the slice has at least four bytes, giving the little-endian value of the first four; otherwise it fails with the too-small panic |
| Convert.U8sToU32 | src/parser/mod.rs:206-214 | Succeeds exactly on slices of 2, 3 or 4 bytes, giving the little-endian value of the whole slice; any other size fails with a panic carrying that size |
| Convert.TestVectors | src/parser/mod.rs:255-314 | The three unit-test vectors: [45,124] gives 31789, [45,124,101] gives 6650925, [45,124,101,12] gives 207977517 |
| Reader.GetKey | src/parser/mod.rs:158-176 | A key is read exactly when 16 bytes remain. It is those 16 bytes, and the cursor moves past them. Otherwise `None` is returned and the cursor does not move |
| Reader.GetLength | src/parser/mod.rs:132-156 | At the end of the buffer: `None`. A byte below 128 is the length, and one byte is consumed. For a byte `b >= 128`: success exactly when `b` is 0x81..0x83 and `b - 127` bytes from `b` on fit. The value is then the little-endian reading of those bytes, including `b`. A slice past the end is a slice panic; 0x80 or 0x84 and up is a size panic. A success consumes one to four bytes and stays within the buffer |
| Reader.New | src/parser/mod.rs:99-105 | A new parser is over the given buffer at cursor 0, so the whole buffer is left to read. It has a next byte exactly when the buffer is not empty |
| Reader.HasNext | src/parser/mod.rs:107-109 | While the cursor is within the buffer, `has_next` holds exactly when the unread rest of the buffer is not empty. It never holds of an empty buffer |
| Reader.Advance | src/parser/mod.rs:128-130 | The buffer is kept and the cursor moves by exactly `bytes`, with no bounds check. When the new cursor is still within the buffer, exactly `bytes` fewer bytes are left to read. Advancing never creates a next byte that was not there before |
| Reader.GetValue | src/parser/mod.rs:178-193 | A value is read exactly when the cursor is before the end and `length` bytes fit. It is those bytes, and the cursor moves past them. Otherwise `None` is returned and the cursor does not move |
| KlvParser.ReadNext | src/parser/mod.rs:111-126 | On success the key is the 16 bytes at the cursor. The value has exactly `length` bytes and is the slice just before the new cursor. The cursor advances by at least 17 + `length` and stays within the buffer. Fewer than 16 bytes left is the key panic; exactly 16 is the length panic |
| KlvParser.ParseFrom | src/parser/mod.rs:196-204 | From the end of the buffer the loop yields no records. With 1 to 16 bytes left it fails. Every record it returns carries exactly `length` value bytes |
| KlvParser.Parse | src/parser/mod.rs:196-204 | An empty buffer gives no records. 1 to 15 bytes fail on the key, and exactly 16 bytes fail on the length. Every record returned has `length` value bytes |
| KlvParser.ParseLoop | src/parser/mod.rs:196-204 | The `while has_next` loop that pushes each `read_next` record computes exactly `Parse` |
| LengthProofs.GetLengthReadsEncoding | src/parser/mod.rs:132-156 | Every length `get_length` yields is representable as written, and the bytes it consumed are exactly `EncodeLength` of that length |
| LengthProofs.UnrepresentableNeverDecoded | src/parser/mod.rs:139-151 | A length outside the representable set (for example 128 or 200) is never produced by `get_length`, whatever the input |
| LengthProofs.GetLengthOfEncoding | src/parser/mod.rs:132-156 | `get_length` reads back any representable length from its encoding, and consumes exactly the encoding |
| LengthProofs.LongFormExample | src/parser/mod.rs:143-151 | [0x82, 0x00, 0x7B] reads as 0x7B0082 as written and as 123 with the corrected reader; both consume three bytes |
| LengthProofs.PrefixExamples | src/parser/mod.rs:147-151 | Prefix 0x80 is a size-1 panic. Prefix 0x84 is a size-5 panic, or a slice panic when the buffer is short. The corrected reader refuses 0x80 and reads 0x84 with four octets |
| LengthProofs.RepresentableExamples | src/parser/mod.rs:147-151 | 128, 200 and 256 have no encoding the source can read; 129 encodes as [0x81, 0x00] |
| ParseProofs.ReadNextOfEncoding | src/parser/mod.rs:111-126 | A framed record is read back by `read_next`, which stops right after it. Framed means well-formed and encoded at the cursor, and, as written, with an empty value not at the end |
| ParseProofs.ReadNextReadsEncoding | src/parser/mod.rs:111-126 | Whatever `read_next` reads as written is a well-formed record. The bytes it consumed are that record's encoding, and a record with an empty value never ends at the end of the buffer |
| ParseProofs.ParseFromReadsEncoding | src/parser/mod.rs:196-204 | A successful parse from any cursor returns well-formed records whose encodings are exactly the rest of the buffer |
| ParseProofs.ParseFromOfEncoding | src/parser/mod.rs:196-204 | In both dialects, the encodings of well-formed records placed at any cursor and running to the end of the buffer parse back to exactly those records |
| ParseProofs.ParseExactly | src/parser/mod.rs:196-204 | `parse` succeeds with `klvs` if and only if `klvs` is well-formed and the buffer is the concatenation of their encodings |
| ParseProofs.ParseConsumesEveryByte | src/parser/mod.rs:196-204 | After a successful parse, the widths of the records (key, length field, value) add up to the whole buffer: no byte is skipped or left over |
| ParseProofs.TrailingBytesRejected | src/parser/mod.rs:158-176 | In both dialects, a record followed by 1 to 15 stray bytes fails on the next key; the stray bytes are not ignored |
| ParseProofs.EmptyLastValue | src/parser/mod.rs:181-193 | A key followed by a zero length at the end of the buffer is the value panic as written; the corrected reader returns one record with an empty value |
| Reader.GetLengthStandard | src/parser/mod.rs:132-156 | Corrected long form. For prefix `0x80 + count` with `count` 1..8, success exactly when the `count` octets after the prefix fit. The value is their big-endian reading and `1 + count` bytes are consumed. Prefix 0x80 and counts above 8 are refused; the short form is as written |
| Reader.GetValueStandard | src/parser/mod.rs:181-193 | Corrected value read. It succeeds exactly when `length` bytes fit, including an empty value at the end of the buffer |
| LengthProofs.GetLengthStandardOfEncoding | src/parser/mod.rs:132-156 | The corrected reader reads back every length below 256^8 from its shortest X.690 encoding, and consumes exactly the encoding |
| KlvParser.ParseStandard | src/parser/mod.rs:196-204 | The corrected loop: an empty buffer gives no records, 1 to 16 bytes fail, and every record has `length` value bytes |
| ParseProofs.ParseStandardRoundTrip | src/parser/mod.rs:196-204 | With the corrected readers, parsing the encoding of any well-formed records gives back exactly those records |

## Left out

- `src/main.rs` is left out because it only reads a file and prints the result.
- `src/parser/uas_lds_parser.rs` is left out because it declares a `Tlv` record that `parse` never uses.
- The `println!` calls in `read_next`, `get_key` and `get_value` are left out because they are output only.
- `test_parser` is left out because it parses a binary file from disk. The three conversion tests are `Convert.TestVectors`.
- The `klvs` field of `Parser` is left out because it is initialised and never read.
- Panic messages are left out: each panic is the `Failure` constructor naming the field or the check that failed.
- Partial results on failure are not modelled because the source returns none: a panic ends the run, so a failing parse is a single `Err`.
- Convert: `(u32::from(b) << 8k)` combined with `|` is modelled as `b * 256^k` combined with `+`. The lanes occupy disjoint bits, so OR and sum agree. No shift can overflow 32 bits, because four bytes fill at most 32 bits.
- Fixed-width cursor arithmetic is not modelled. The model uses unbounded integers for `cursor + length` and `cursor + bytes_length`, while the source uses `usize`. On 64-bit targets these sums cannot overflow: the cursor is at most the buffer length and a length is below 2^32. On 32-bit targets an overflowing sum ends in a panic, from the overflow check or the slice that follows. The model reports that case as a failure too.
- The `num as usize` cast is not modelled because it is lossless for a `u32` on 32- and 64-bit targets.
- The byte-by-byte copy of the key into a `[u8; 16]` array (lines 166-170) is modelled as taking the 16-byte slice, which is what the copy produces.
- Tag decoding inside local sets (BER-OID tags, nested TLVs) is left out because the code does not implement it.
- KlvParser.ReadNext: its own contract states the shape of a successful read and the two key/length panics only. The complete as-written behaviour is stated by `ParseProofs.ReadNextOfEncoding` and `ParseProofs.ReadNextReadsEncoding`.
- KlvParser.ParseFrom: its own contract states the end and short-tail cases and the value lengths only. The full characterisation is `ParseProofs.ParseExactly` and `ParseProofs.ParseFromOfEncoding`.

## Findings

| source | as written | input that shows it | evidently intended | confidence | as-written member | corrected member |
|---|---|---|---|---|---|---|
| src/parser/mod.rs:147-151 | The long-form length is read from `b - 127` bytes that start at the prefix byte `b` itself, least significant byte first | `[0x82, 0x00, 0x7B]` reads as 0x7B0082 (8061058) | The long form of ISO/IEC 8825-1 (section 8.1.3.5 of ITU-T X.690), the rules the header names at lines 9-10: `b - 128` further octets, as the header says at lines 30-31, read most significant first as the standard specifies, giving 123 | high; not executed | LengthProofs.LongFormExample | Reader.GetLengthStandard |
| src/parser/mod.rs:147-151 | Only prefixes 0x81..0x83 decode. Lengths from 128 up exist only when their low byte is 0x81..0x83. Prefix 0x80 and prefixes from 0x84 up panic | Length 200 has no encoding at all. `[0x84, 0, 0, 0, 1]` panics on slice size 5 | Every length up to the long form's range is encodable, and prefix 0x84 is followed by four octets | high; not executed | LengthProofs.RepresentableExamples | LengthProofs.GetLengthStandardOfEncoding |
| src/parser/mod.rs:186 | `get_value` also requires the cursor to be before the end, so a zero-length value that ends the buffer is refused | A 16-byte key followed by `0x00` panics with "Unable to parse value" | A zero-length value is read as an empty value wherever it occurs | medium; not executed | ParseProofs.EmptyLastValue | Reader.GetValueStandard |
