# Lilac storage core in Dafny

Lilac is an append-only key-value store written in Rust. This project models
two parts of its storage core and proves what they promise.

- **Typed record constructors** (`Buffer` in `src/core/buffer.rs`). Each
  constructor takes a key and a native value, picks the record's type tag and
  serialises the value into the payload bytes of a `KV` record:
  - a bool becomes the one byte 1 or 0;
  - byte arrays and strings are copied unchanged;
  - `i32` and `i64` become their big-endian two's-complement bytes;
  - integer arrays become their elements' encodings laid end to end, with a
    stride of 4 or 8.

  These constructors live in module `RecordBuffer` (`buffer.dfy`). The scalar
  constructors are functions. The two array constructors are methods whose
  loops extend a byte vector, and their loop invariants tie them to the pure
  packing function `Endian.Pack`. `RecordBuffer.Read` is the inverse of the
  constructors. With it the model proves that each constructor's payload reads
  back as the value it was built from, and that each well-formed record is
  exactly the record its value is stored as.
- **Fixed-width big-endian words** (module `Endian`, `endian.dfy`). This module
  covers:
  - `to_be_bytes` and `from_be_bytes` for unsigned words (`ToBE`, `FromBE`);
  - the same for two's-complement integers (`EncodeInt`, `DecodeInt`);
  - packed arrays of such words (`Pack`, `Unpack`).

  It proves that each pair is a pair of inverse bijections.
- **Appending to the memory-mapped log** (`MemoryMap::append` in
  `src/core/mmap.rs`), in module `MemoryMapping` (`mmap.dfy`). The mapped
  region is a fixed-capacity byte array. Its first 8 bytes (`HEADER_OFFSET`)
  hold the log's length as a big-endian `usize`, and the records follow.
  - `MemoryMapping.AppendTo` is the region after one append, and `AppendAll` is
    the region after a run of appends.
  - The class `MemoryMapping.MemoryMap` holds the region in an `array<byte>`
    and the file's durable contents in `disk`. Its `Append` method writes the
    new header, copies the value in and flushes the prefix `[0, end)`. It is
    proved to produce exactly the region `AppendTo` describes.
  - The class invariant records the whole history of appends. From it,
    `MemoryMap.LogInvariant` shows that the header counts every appended byte
    and that the records are the appended values, contiguous and in order.

The source's `append` has no bounds check, and it rewrites the header before
indexing the target range. The model does not repeat that: `AppendTo` and
`MemoryMap.Append` check the bounds first and report `OutOfBounds` without
writing anything. The behaviour as written is modelled separately by
`AppendAsWritten` (see "## Findings").

## Model

| member | source | states |
|---|---|---|
| RecordBuffer.FromKV | src/core/buffer.rs:21-27 | the record's key, type tag and payload are exactly the inputs, with the bytes copied unchanged |
| RecordBuffer.FromByteArray | src/core/buffer.rs:29-31 | tag `BYTE_ARRAY`, payload equal to the input bytes, and it reads back as that byte array |
| RecordBuffer.FromBool | src/core/buffer.rs:33-36 | tag `BYTE` and a one-byte payload that is 1 exactly for true and 0 exactly for false; it reads back as the flag |
| RecordBuffer.FormStr | src/core/buffer.rs:38-40 | tag `STR` and a payload equal to the string's UTF-8 bytes; it reads back as the string |
| RecordBuffer.FromI32 | src/core/buffer.rs:42-44 | tag `I32` and a 4-byte payload that decodes as big-endian two's complement to the value; the leading byte is at least 0x80 exactly when the value is negative; it reads back as the value |
| RecordBuffer.FromI64 | src/core/buffer.rs:46-48 | tag `I64` and an 8-byte payload that decodes to the value; the sign is in the leading byte; it reads back as the value |
| RecordBuffer.FromI32MinusOne | src/core/buffer.rs:42-44 | -1 is stored as FF FF FF FF |
| RecordBuffer.FormI32Array | src/core/buffer.rs:58-64 | tag `I32_ARRAY`; payload length 4·n; bytes [4i, 4i+4) are the encoding of element i, so element order is kept; the payload is the packed array and reads back as the array |
| RecordBuffer.FormI64Array | src/core/buffer.rs:66-72 | tag `I64_ARRAY`; payload length 8·n; bytes [8i, 8i+8) are the encoding of element i; the payload is the packed array and reads back as the array |
| RecordBuffer.ReadPackI32 | src/core/buffer.rs:58-64 | a packed `i32` array, split into 4-byte words and decoded, gives the array back |
| RecordBuffer.ReadPackI64 | src/core/buffer.rs:66-72 | a packed `i64` array, split into 8-byte words and decoded, gives the array back |
| RecordBuffer.ReadConstruct | src/core/buffer.rs:21-72 | every record a modelled constructor builds keeps its key and reads back as the value it was built from |
| RecordBuffer.ConstructRead | src/core/buffer.rs:21-72 | every record that holds a value is exactly what the constructor for that value builds from its key, so no two values share a record |
| Endian.ToBE | src/core/mmap.rs:91 | the `width`-byte big-endian word of `n` has exactly `width` bytes and reads back as `n` |
| Endian.ToBEFromBE | src/core/mmap.rs:87 | every byte string is the big-endian word of its own value: writing and reading words are inverse bijections |
| Endian.FromBEInjective | src/core/mmap.rs:87 | two words of one width with the same value are the same bytes |
| Endian.FromBEHead | src/core/mmap.rs:87 | a word's value is its leading byte weighted by 256^(width-1) plus the value of the rest |
| Endian.SignBit | src/core/buffer.rs:42-48 | a word is at least half its range exactly when its leading byte's top bit is set |
| Endian.DecodeInt | src/core/buffer.rs:42-48 | the two's-complement value of a w-byte word lies in [-2^(8w-1), 2^(8w-1)) |
| Endian.EncodeInt | src/core/buffer.rs:42-48 | `to_be_bytes` of a signed integer has w bytes and, for every representable value, decodes back to that value |
| Endian.ModularDecode | src/core/buffer.rs:42-48 | reducing a representable value modulo 256^w and reading it as two's complement gives the value back |
| Endian.DecodeEncodeInt | src/core/buffer.rs:42-48 | every w-byte word is the encoding of the integer it decodes to, so encoding is a bijection onto words |
| Endian.EncodeIntSign | src/core/buffer.rs:42-48 | a representable value is negative exactly when its encoding's leading byte is 0x80 or more |
| Endian.MinusOneIsAllOnes | src/core/buffer.rs:42-48 | -1 encodes as all-ones bytes in both 4 and 8 bytes |
| Endian.AllOnes | src/core/buffer.rs:42-48 | an all-ones word holds 256^w - 1 |
| Endian.AllZeros | src/core/mmap.rs:87 | an all-zero word holds 0 |
| Endian.Pack | src/core/buffer.rs:58-72 | packing n elements at stride w gives w·n bytes |
| Endian.PackSnoc | src/core/buffer.rs:60-62 | extending the packed prefix by one element appends that element's encoding, which is one step of the constructors' loops |
| Endian.PackAppend | src/core/buffer.rs:58-72 | packing distributes over concatenation of arrays |
| Endian.PackAround | src/core/buffer.rs:58-72 | an array split around one element packs as the packed prefix, that element's encoding, then the packed suffix |
| Endian.PackChunk | src/core/buffer.rs:58-72 | bytes [w·i, w·i+w) of a packed array are the encoding of element i |
| Endian.Unpack | src/core/buffer.rs:58-72 | every word read back from a payload is a representable w-byte integer |
| Endian.UnpackPack | src/core/buffer.rs:58-72 | unpacking a packed array of representable integers gives the array back |
| Endian.PackUnpack | src/core/buffer.rs:58-72 | packing the words of a byte string whose length is a multiple of w gives the string back |
| MemoryMapping.Header | src/core/mmap.rs:87 | the length read from bytes [0, 8) with `usize::from_be_bytes` is a 64-bit `usize` |
| MemoryMapping.HeaderWord | src/core/mmap.rs:87 | the header bytes are exactly the 8-byte big-endian word of the length they hold |
| MemoryMapping.AppendTo | src/core/mmap.rs:85-94 | an append succeeds exactly when the region has a header and 8 + old length + value length is at most the capacity; a successful append keeps the region's length |
| MemoryMapping.AppendToLayout | src/core/mmap.rs:87-92 | after an append the header holds the old length plus the value's length and the log is well formed; [8, start) is unchanged, [start, end) is the value, and everything from `end` on is unchanged |
| MemoryMapping.AppendToRecords | src/core/mmap.rs:87-92 | after an append the record area is the old record area followed by the value |
| MemoryMapping.Concat | src/core/mmap.rs:87-92 | the concatenation of the values is as long as their total length |
| MemoryMapping.AppendAll | src/core/mmap.rs:85-94 | a successful run of appends keeps the region's length |
| MemoryMapping.AppendAllSnoc | src/core/mmap.rs:85-94 | one more append extends a successful run of appends |
| MemoryMapping.AppendAllLog | src/core/mmap.rs:87-92 | on a well-formed log, a run of appends succeeds exactly when the total fits. The header then grows by the total appended, the record area is the old records followed by the values in order, and the slack after them is unchanged |
| MemoryMapping.FromEmptyLog | src/core/mmap.rs:87-92 | from header 0, after successful appends the header is the sum of the appended lengths and [8, 8+header) is the values concatenated in order |
| MemoryMapping.AppendAsWritten | src/core/mmap.rs:85-94 | `append` statement by statement: a region shorter than 8 bytes panics at the header read with nothing written; a `usize` overflow of `end` panics (debug build) with nothing written; otherwise the header is rewritten and then the copy panics when `end` is past the capacity. It keeps the region's length and panics exactly where the bounds-checked append refuses |
| MemoryMapping.AsWrittenAgrees | src/core/mmap.rs:85-94 | wherever the bounds-checked append succeeds, the code as written does the same thing and does not panic |
| MemoryMapping.AsWrittenCorruptsHeader | src/core/mmap.rs:91-92 | as written, an append that does not fit a well-formed log panics after rewriting the header to the old length plus the value's length, so the log is no longer well formed |
| MemoryMapping.AsWrittenStuck | src/core/mmap.rs:87-92 | as written, once the header claims more than the region holds, every later append panics, even an empty one |
| MemoryMapping.AsWrittenCounterexample | src/core/mmap.rs:91-92 | a 16-byte empty log and a 9-byte value: as written, the append panics and leaves header 9 behind, and the next append panics too; the bounds-checked append refuses it |
| MemoryMapping.CopyInto | src/core/mmap.rs:91-92 | `copy_from_slice` into [at, at+len) replaces exactly those bytes with the source and leaves every other byte as it was |
| MemoryMapping.AppendStep | src/core/mmap.rs:91-92 | the header write and the value copy, applied to the region a history of appends produced, give the region that history extended by the value produces; the header grows by the value's length and [start, end) holds the value |
| MemoryMapping.HeaderThenValue | src/core/mmap.rs:91-92 | writing the header and then copying the value, in the source's order, gives the region `AppendTo` describes |
| MemoryMapping.MemoryMap.constructor | src/core/mmap.rs:14-17 | a mapping over a file of `n` bytes has capacity `n`, shows the file's contents and records no appends yet |
| MemoryMapping.MemoryMap.Flush | src/core/mmap.rs:43-50 | the result is the operating system's answer; on success the durable contents take the mapped prefix [0, upTo) and keep the rest, and on failure they are unchanged |
| MemoryMapping.MemoryMap.Append | src/core/mmap.rs:85-94 | it reports out of bounds exactly when `AppendTo` does, and then changes nothing. Otherwise the region becomes `AppendTo` of the old region: the header grows by the value's length and [start, end) holds the value. The value joins the append history, the prefix [0, end) is flushed, and the result is the flush's. The capacity and the class invariant are kept |
| MemoryMapping.MemoryMap.LogInvariant | src/core/mmap.rs:87-92 | a region mapped over a well-formed log stays well formed. Its header counts the old records plus every appended byte, and its records are the old ones followed by the appended values in order |

## Left out

- Floating-point constructors (`from_f32`, `from_f64`, `form_f32_array`, `form_f64_array`) are not modelled, because their payloads are IEEE 754 bit patterns. Their type tags exist in `Types`, and `Read` treats them as holding no value.
- `KV` and `Types` are protobuf-generated code that the repository does not contain. They are mirrored as plain datatypes: `EnumOrUnknown`'s unknown tag numbers and protobuf's own wire encoding are not modelled.
- The `Encoder` and `Decoder` traits have no implementation. `RecordBuffer.Read` is this model's own decoder, used only to state round trips.
- `form_str` takes a `&str`. The model takes the string's UTF-8 bytes, because Dafny has no UTF-8 encoder. So in the model a `Str` record whose payload is not valid UTF-8 counts as well formed (`Read` accepts it and `ConstructRead` covers it), although no `form_str` call can build one.
- `Vec::with_capacity` is only a capacity hint with no observable effect, so the model starts from an empty sequence.
- `MMap::new`, `MemoryMap::new`, `Drop` and `Deref`/`DerefMut` are not modelled, because they wrap `mmap`, `madvise`, `munmap` and raw pointers. The mapped bytes are the array `MemoryMap.bytes`, and `MemoryMap.constructor` takes the file's contents in place of the system call.
- MemoryMap.Flush: `msync`'s answer is the parameter `synced`. A failed `msync` leaves `disk` unchanged, although the operating system may have written some pages. The model also leaves out that a shared mapping can reach the file before any `msync`.
- MemoryMap.Append: where the source panics (an append past the capacity), the method returns `OutOfBounds` and changes nothing. This is the corrected behaviour; the behaviour as written is `AppendAsWritten`, whose partial header write the class does not carry.
- `usize` is taken to be 64 bits wide. `AppendAsWritten` models the overflow panic of a debug build; the silent wrap-around of a release build is not modelled.
- The Rust as written does not compile. `append` writes through `&self` without `DerefMut`, and some result types are malformed (`Result<Ok, Err()>`). The model follows the evident intent: `append` mutates the region, and `flush` returns success or failure.
- The `Error` enum of `src/lib.rs` is not used by the modelled code. Append results are `AppendResult`.
- Region growth, replay, compaction and the key index are not part of the modelled files.

## Findings

| source | as written | input that shows it | evidently intended | confidence | as-written member | corrected member |
|---|---|---|---|---|---|---|
| src/core/mmap.rs:91-92 | `append` rewrites the header with the new length before it indexes `[start..end]`. When `end` is past the capacity, that slice panics after the header has already been overwritten, so the shared mapping's header claims bytes the region does not hold, and every later append panics | a 16-byte region holding an empty log (header 0), and a 9-byte value | check `end <= capacity` before writing anything, so that an append that does not fit leaves the log unchanged | not executed | MemoryMapping.AsWrittenCounterexample | MemoryMapping.AppendTo |
