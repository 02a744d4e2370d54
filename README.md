# safetensors-reader, modelled in Dafny

This project models `Reader::from_file` of the `safetensors-reader` crate. That function opens a
safetensors file and reads it in four steps:

- an 8-byte little-endian length `N`;
- an `N`-byte JSON metadata block naming each tensor's dtype, shape and `data_offsets`;
- a sort of the tensor names by their first data offset;
- one task per name that opens the file again, reads the tensor's bytes and builds a
  `U8`, `F16`, `BF16` or `F32` tensor.

The model follows the code as written, including where it departs from the safetensors layout:

- `U8` reads `end - start + 1` bytes from offset 0, without seeking.
- `F16`, `BF16` and `F32` seek to the absolute file offset `start`, not to `8 + N + start`.
- `F32` checks that the byte range is even, then reads `(end - start) / 4` words.

Those departures are logged under "## Findings", and module `Corrected` gives the decoder the
layout calls for, with its own proofs.

Modules:

- `Errors`: the failures. Every `unwrap`, `expect`, `assert_eq!`, index, `usize` overflow and
  `panic!` of the source becomes an `Error` value, including the `unwrap` of a seek to an offset
  of 2^63 or more, which the operating system rejects. `IsPanic` tells these apart from the
  `UnexpectedEof` that the two header reads of `from_file` return through `?`.
- `Bytes`: bounded integer types, little-endian values and encodings, and the word decoding
  behind `read_u16_into` and `read_f32_into`.
- `Io`: a `FileHandle` class holding the file's bytes and a mutable cursor. It provides
  `read_exact`, `read_u16_into`, `read_f32_into` and `seek`. The three helpers `read_bytes`,
  `read_bytes_u16` and `read_bytes_f32` are methods on a handle.
- `Tensors`: `Tensor`, `Descriptor`, and the per-name task. `DecodeTensor` is the specification
  function; `LoadTensor` is the imperative task, proved equal to it.
- `SafeTensors`: the header read, `ordered_keys` with an in-place insertion sort, the fan-out, and
  `FromFile`.
- `Corrected`: the intended decoder and pipeline, plus concrete counterexamples for the as-written
  code.

## Model

| member | source | states |
|---|---|---|
| Bytes.LeValueOfLeBytes | src/lib.rs:57 | encoding a value below 256^n in n little-endian bytes and decoding gives the value back |
| Bytes.LeBytesOfLeValue | src/lib.rs:57 | decoding n little-endian bytes and re-encoding in n bytes gives the same bytes |
| Bytes.U64FromLe | src/lib.rs:57 | `u64::from_le_bytes` of 8 bytes is a `u64` whose 8-byte little-endian encoding is those bytes |
| Bytes.U64FromLeOfLeBytes | src/lib.rs:57 | `from_le_bytes` inverts `to_le_bytes` on every `u64` |
| Bytes.Le16 | src/lib.rs:151 | one 16-bit word is the little-endian value of its two bytes |
| Bytes.Le32 | src/lib.rs:157 | one 32-bit word is the little-endian value of its four bytes |
| Bytes.U16sAt | src/lib.rs:151 | word i of a decoded buffer is `b[2i] + 256 * b[2i+1]` |
| Bytes.U32sAt | src/lib.rs:157 | word i of a decoded buffer is the little-endian value of `b[4i..4i+4]` |
| Bytes.U16sOfEncode | src/lib.rs:151 | decoding the little-endian encoding of 16-bit words gives the words back |
| Bytes.EncodeOfU16s | src/lib.rs:151 | re-encoding the words decoded from an even-length buffer gives the buffer back |
| Bytes.U32sOfEncode | src/lib.rs:157 | decoding the little-endian encoding of 32-bit words gives the words back |
| Bytes.EncodeOfU32s | src/lib.rs:157 | re-encoding the words decoded from a buffer whose length is a multiple of 4 gives the buffer back |
| Io.FileHandle.Open | src/lib.rs:53 | a freshly opened handle reads the file's bytes from offset 0 |
| Io.FileHandle.Seek | src/lib.rs:90 | seeking from the start succeeds iff the offset is below 2^63 (it is passed on as a signed 64-bit value); it then puts the cursor at the offset, even past the end of the file, and otherwise leaves the cursor where it was |
| Io.FileHandle.ReadExact | src/lib.rs:145 | succeeds iff the buffer is empty or the file has that many bytes at the cursor; on success the buffer holds exactly those bytes and the cursor moves past them; otherwise `UnexpectedEof` with the cursor at the end |
| Io.FileHandle.ReadU16Into | src/lib.rs:151 | succeeds iff twice the element count fits at the cursor; on success each element is the little-endian word of its byte pair; otherwise `UnexpectedEof` |
| Io.FileHandle.ReadF32Into | src/lib.rs:157 | succeeds iff four times the element count fits at the cursor; on success each element is the little-endian bit pattern of its four bytes; otherwise `UnexpectedEof` |
| Io.ReadBytes | src/lib.rs:143-147 | returns exactly `size` bytes from the cursor, or `UnexpectedEof` when the file is shorter |
| Io.ReadBytesU16 | src/lib.rs:149-153 | returns `count` little-endian words from the cursor, or `UnexpectedEof` |
| Io.ReadBytesF32 | src/lib.rs:155-159 | returns `count` little-endian 32-bit patterns from the cursor, or `UnexpectedEof` |
| Tensors.Tensor.Shape | src/lib.rs:36-43 | the shape of a tensor is its `shape` field, whatever its element type |
| Tensors.DecodeTensor | src/lib.rs:72-131 | every way a single tensor fails is a panic, never a returned error; a decoded tensor has a supported dtype, two offsets and the descriptor's shape |
| Tensors.LoadTensor | src/lib.rs:69-132 | the per-name task, run on its own fresh handle, gives exactly the specified decode of the descriptor |
| Tensors.DecodedMatchesDescriptor | src/lib.rs:72-131 | fewer than two offsets gives an index failure; an unsupported dtype gives the unsupported-dtype panic; a supported dtype with `start > end` gives the subtraction overflow; every failure is a panic; a decoded tensor has the descriptor's shape and the variant its dtype names |
| Tensors.U8ReadsFromFileStart | src/lib.rs:75-85 | a `U8` tensor decodes iff `start <= end` and the file holds `end - start + 1` bytes; it is then the first `end - start + 1` bytes of the file, whatever `start` is |
| Tensors.HalfDecodesWords | src/lib.rs:87-116 | `F16`/`BF16` fail with an alignment error iff the range is odd; an even range with `start` of 2^63 or more fails at the seek; an even range decodes iff `start` is below 2^63 and the range fits at absolute offset `start`; element i is then the word at `start + 2i` |
| Tensors.F32DecodesWords | src/lib.rs:117-130 | `F32` fails with an alignment error iff the range is odd; an even range with `start` of 2^63 or more fails at the seek; an even range decodes iff `start` is below 2^63 and `4 * ((end - start) / 4)` bytes fit at `start`; there are then `(end - start) / 4` elements, and element i is the pattern at `start + 4i` |
| Tensors.F32IgnoresTrailingPair | src/lib.rs:118-121 | an `F32` range of `4k + 2` bytes decodes exactly as the range shortened by 2 bytes |
| Tensors.HalfRoundTrip | src/lib.rs:87-116 | 16-bit words stored little-endian at an absolute offset `start` below 2^63 decode back to those words under `F16` and `BF16` |
| Tensors.F32RoundTrip | src/lib.rs:117-130 | 32-bit patterns stored little-endian at an absolute offset `start` below 2^63 decode back to those patterns under `F32` |
| SafeTensors.ReadHeader | src/lib.rs:55-62 | the header is read only from a file holding the 8-byte length `N` and `N` more bytes, and is then the deserializer's result on exactly those `N` bytes; a rejected block is `InvalidJson`; every other failure is `UnexpectedEof` |
| SafeTensors.HeaderRoundTrip | src/lib.rs:55-62 | a file made of an 8-byte length, that many metadata bytes and anything after them yields the deserializer's verdict on exactly the metadata bytes |
| SafeTensors.HeaderLayout | src/lib.rs:55-62 | a file shorter than 8 bytes, or than `8 + N`, fails with `UnexpectedEof`; any other outcome comes from a file with the layout above |
| SafeTensors.ReadHeaderFrom | src/lib.rs:55-62 | the two reads through one handle from offset 0, then the parse, give the specified header outcome |
| SafeTensors.InsertIntoPrefix | src/lib.rs:65 | one pass of the sort turns a prefix sorted by start offset into a prefix one longer that is sorted and a permutation of the old one, leaving the rest of the array untouched |
| SafeTensors.SortByStart | src/lib.rs:65 | the names end up ordered by `data_offsets[0]`, as a permutation of the names before |
| SafeTensors.PermutationEnumerates | src/lib.rs:64-65 | sorting a list that names every key once gives a list that still names every key once |
| SafeTensors.OrderedKeys | src/lib.rs:64-65 | fails, with an index error, iff there are at least two names and one has no offsets; otherwise lists every name exactly once, sorted by start offset |
| SafeTensors.DecodeAll | src/lib.rs:67-134 | the collected tensor map has exactly the table's names, each mapped to its own decoded tensor |
| SafeTensors.LoadAll | src/lib.rs:67-134 | succeeds iff every descriptor decodes, giving the map from every name to its decoded tensor; otherwise fails with the error of some name's decode |
| SafeTensors.FromFile | src/lib.rs:52-140 | a header failure is returned as is; otherwise the reader holds the metadata and every decoded tensor iff all decode, and a failure is some tensor's own error |
| SafeTensors.ShapesMatchDescriptors | src/lib.rs:36-43 | a decoded file has exactly the table's names, each tensor with its descriptor's shape and a supported dtype |
| Corrected.EncodeOfReinterpret | src/lib.rs:91-92 | viewing whole elements of raw bytes as a dtype's buffer and encoding it gives the bytes back, with the dtype and shape |
| Corrected.ReinterpretOfEncode | src/lib.rs:91-92 | every tensor's buffer is a whole number of elements and views back as the same tensor |
| Corrected.RejectsMisaligned | src/lib.rs:88 | the corrected decoder reports an alignment failure iff the range is not a multiple of the element width, `F32` included |
| Corrected.ReadsDeclaredRange | src/lib.rs:72-130 | a tensor decoded by the corrected decoder is exactly the bytes `[start, end)` of the data region, with its dtype and shape |
| Corrected.RoundTrip | src/lib.rs:72-130 | a tensor stored in the data region at the range its descriptor names decodes back to itself |
| Corrected.OpenRoundTrip | src/lib.rs:52-140 | a file written as length prefix, metadata and data region opens to exactly the described tensors and the metadata |
| Corrected.U8Counterexample | src/lib.rs:76-77 | on a concrete file the code reads `[2, 0, 0]` from the length prefix where the layout means the data bytes `[7, 9]` |
| Corrected.HalfCounterexample | src/lib.rs:90 | on a concrete file `F16` over `[2, 4]` reads word 0 from the length prefix where the layout means word 1 of the data region |
| Corrected.F32Counterexample | src/lib.rs:118-119 | a 2-byte `F32` range gives an empty tensor as written, and an alignment failure under the corrected check |

## Left out

- Parallel fan-out: rayon's parallel map is modelled as a sequential loop over the sorted names. The tasks share no state, so a fully successful outcome does not depend on the order. When several tensors fail, which failure surfaces depends on scheduling, so `LoadAll` and `FromFile` promise only "the error of some name".
- `File::open` failures: the path is replaced by the file's bytes, and opening always succeeds.
- JSON deserialization: `serde_json::from_slice` and the `__metadata__` flatten become a parameter `parse` from bytes to an optional `Header`. A rejected block is `InvalidJson`. The metadata value is a small `Json` datatype that is passed through unchanged.
- Floating point: `f16`, `bf16` and `f32` elements are kept as their raw bit patterns (`u16`, `u32`), and `bytemuck::cast_vec` is the identity on them. No float arithmetic happens in the source.
- Allocation failure of `vec![0; size]` for huge sizes is not modelled.
- `usize` arithmetic follows debug builds: `end - start` underflow and `end - start + 1` overflow are panics (`SubtractOverflow`, `AddOverflow`), not release-mode wrap-around.
- `HashMap` key order and ties between equal start offsets: the keys are collected in an arbitrary order chosen by `:|`. Only "sorted by start offset" is promised, so the relative order of tied names is not modelled.
- `SafeTensors.SortByStart`: `sort_by_key` is a stable merge sort; the model uses an in-place insertion sort with the same postcondition (sorted and a permutation). Stability is not stated.
- Both header truncations, before byte 8 and before byte `8 + N`, surface as the same `UnexpectedEof`.
- Shapes are never checked against the byte counts of their ranges; the shape is copied as it is.
- Only one failing tensor is surfaced by `FromFile`; `Corrected.Open` collects every failing tensor.
- Corrected.DecodeTensor: reads the declared range of the data region directly and does not model the seek that a corrected reader would issue, nor that seek's limit of 2^63.

## Findings

| source | as written | input that shows it | evidently intended | confidence | as-written member | corrected member |
|---|---|---|---|---|---|---|
| src/lib.rs:76 | `U8` reads `end - start + 1` bytes | range `[0, 2]` over the file `Corrected.SampleFile` gives 3 bytes | `end` is exclusive, so read `end - start` bytes | high; not executed | Corrected.U8Counterexample | Corrected.ReadsDeclaredRange |
| src/lib.rs:70-77 | `U8` reads from offset 0 of a fresh handle, without seeking | range `[0, 2]` returns `[2, 0, 0]`, part of the length prefix | seek to the tensor's start in the data region | high; not executed | Corrected.U8Counterexample | Corrected.RoundTrip |
| src/lib.rs:90 | seeks to absolute offset `start` (also lines 105 and 120) | `F16` over `[2, 4]` reads word 0 from inside the length prefix instead of data word 1 | seek to `8 + N + start`, the start of the data region plus the offset | high; not executed | Corrected.HalfCounterexample | Corrected.OpenRoundTrip |
| src/lib.rs:118 | `F32` checks `(end - start) % 2` but reads `(end - start) / 4` words | `F32` over `[0, 2]` returns an empty tensor | check `(end - start) % 4` | high; not executed | Corrected.F32Counterexample | Corrected.RejectsMisaligned |

`SafeTensors.FromFile` keeps the behaviour as written. `Corrected.Open` is the pipeline as the
layout intends it: offsets are relative to the data region at `8 + N`, `end` is exclusive for every
dtype, the alignment check uses the element width, and every failing tensor is reported.
