/** The decoder as the file layout means it: tensor offsets are relative to the data region that
    follows the metadata block, `end` is exclusive for every dtype, and every dtype's byte range
    must be a multiple of its element width. Beside it, concrete files on which the program as
    written (`Tensors.DecodeTensor`) departs from this. */
module Corrected {
  import opened Bytes
  import opened Errors
  import opened Io
  import opened Tensors
  import opened SafeTensors

  /** Element width in bytes. */
  function Width(dtype: string): (w: nat)
    requires SupportedDtype(dtype)
    ensures w == 1 || w == 2 || w == 4
  {
    if dtype == "U8" then 1 else if dtype == "F32" then 4 else 2
  }

  function DtypeOf(t: Tensor): (dtype: string)
    ensures SupportedDtype(dtype)
  {
    match t
    case U8(_, _) => "U8"
    case F16(_, _) => "F16"
    case Bf16(_, _) => "BF16"
    case F32(_, _) => "F32"
  }

  /** The raw bytes of a tensor's buffer, little-endian. */
  function Encode(t: Tensor): seq<u8> {
    match t
    case U8(b, _) => b
    case F16(w, _) => EncodeU16s(w)
    case Bf16(w, _) => EncodeU16s(w)
    case F32(w, _) => EncodeU32s(w)
  }

  /** The zero-copy view of `raw` as a buffer of the dtype's elements. */
  function Reinterpret(dtype: string, raw: seq<u8>, shape: seq<usize>): Tensor
    requires SupportedDtype(dtype)
    requires dtype == "F16" || dtype == "BF16" ==> |raw| % 2 == 0
    requires dtype == "F32" ==> |raw| % 4 == 0
  {
    if dtype == "U8" then U8(raw, shape)
    else if dtype == "F16" then F16(U16s(raw), shape)
    else if dtype == "BF16" then Bf16(U16s(raw), shape)
    else F32(U32s(raw), shape)
  }

  lemma EncodeOfReinterpret(dtype: string, raw: seq<u8>, shape: seq<usize>)
    requires SupportedDtype(dtype)
    requires dtype == "F16" || dtype == "BF16" ==> |raw| % 2 == 0
    requires dtype == "F32" ==> |raw| % 4 == 0
    ensures var t := Reinterpret(dtype, raw, shape);
            Encode(t) == raw && DtypeOf(t) == dtype && t.Shape() == shape
  {
    if dtype == "F16" || dtype == "BF16" {
      EncodeOfU16s(raw);
    } else if dtype == "F32" {
      EncodeOfU32s(raw);
    }
  }

  lemma ReinterpretOfEncode(t: Tensor)
    ensures |Encode(t)| % Width(DtypeOf(t)) == 0
    ensures Reinterpret(DtypeOf(t), Encode(t), t.Shape()) == t
  {
    match t
    case U8(_, _) =>
    case F16(w, _) => U16sOfEncode(w);
    case Bf16(w, _) => U16sOfEncode(w);
    case F32(w, _) => U32sOfEncode(w);
  }

  /** One tensor decoded from the data region that starts at file offset `dataStart`. */
  function DecodeTensor(file: seq<u8>, dataStart: nat, d: Descriptor): Result<Tensor> {
    if |d.dataOffsets| < 2 then Err(IndexOutOfBounds)
    else if !SupportedDtype(d.dtype) then Err(UnsupportedDtype(d.dtype))
    else
      var start: nat, end: nat := d.dataOffsets[0], d.dataOffsets[1];
      if end < start then Err(SubtractOverflow)
      else if (end - start) % Width(d.dtype) != 0 then Err(InvalidAlignment)
      else if !Fits(file, dataStart + start, end - start) then Err(UnwrapEof)
      else
        Ok(Reinterpret(d.dtype, Slice(file, dataStart + start, end - start), d.shape))
  }

  /** Every dtype's byte range must be a whole number of elements. */
  lemma RejectsMisaligned(file: seq<u8>, dataStart: nat, d: Descriptor)
    requires |d.dataOffsets| >= 2 && SupportedDtype(d.dtype) && d.dataOffsets[0] <= d.dataOffsets[1]
    ensures DecodeTensor(file, dataStart, d) == Err(InvalidAlignment)
            <==> (d.dataOffsets[1] - d.dataOffsets[0]) % Width(d.dtype) != 0
  {
  }

  /** A decoded tensor is exactly the bytes of its declared range `[start, end)` of the data
      region, read as elements of its declared dtype, with its declared shape. */
  lemma ReadsDeclaredRange(file: seq<u8>, dataStart: nat, d: Descriptor)
    requires DecodeTensor(file, dataStart, d).Ok?
    ensures var t := DecodeTensor(file, dataStart, d).value;
            var start: nat, end: nat := d.dataOffsets[0], d.dataOffsets[1];
            && start <= end
            && (start < end ==> dataStart + end <= |file|)
            && Encode(t) == Slice(file, dataStart + start, end - start)
            && DtypeOf(t) == d.dtype && t.Shape() == d.shape
  {
    var start: nat, end: nat := d.dataOffsets[0], d.dataOffsets[1];
    if d.dtype == "F32" {
      assert (end - start) % 4 == 0;
    }
    EncodeOfReinterpret(d.dtype, Slice(file, dataStart + start, end - start), d.shape);
  }

  /** `d` describes `t` stored in `data`: its dtype and shape, and a range holding its bytes. */
  predicate Describes(d: Descriptor, t: Tensor, data: seq<u8>) {
    && d.dtype == DtypeOf(t) && d.shape == t.Shape()
    && |d.dataOffsets| == 2
    && d.dataOffsets[0] + |Encode(t)| == d.dataOffsets[1] <= |data|
    && data[d.dataOffsets[0]..d.dataOffsets[1]] == Encode(t)
  }

  /** Encoding a tensor into the data region and describing it decodes it back. */
  lemma RoundTrip(file: seq<u8>, dataStart: nat, d: Descriptor, t: Tensor)
    requires dataStart <= |file| && Describes(d, t, file[dataStart..])
    ensures DecodeTensor(file, dataStart, d) == Ok(t)
  {
    var start: nat, end: nat := d.dataOffsets[0], d.dataOffsets[1];
    ReinterpretOfEncode(t);
    assert Slice(file, dataStart + start, end - start) == file[dataStart..][start..end];
  }

  /** The outcome of the corrected pipeline: failures of single tensors are all collected. */
  datatype Outcome =
    | Decoded(reader: Reader)
    | HeaderFailed(error: Error)
    | TensorsFailed(errors: map<string, Error>)

  /** The corrected pipeline: the header as the program reads it, then every tensor decoded
      from the data region at `8 + N`, with every failing tensor reported. */
  function Open(file: seq<u8>, parse: seq<u8> -> Option<Header>): Outcome {
    match ReadHeader(file, parse)
    case Err(e) => HeaderFailed(e)
    case Ok(h) =>
      var dataStart := 8 + U64FromLe(file[..8]);
      if forall k :: k in h.items ==> DecodeTensor(file, dataStart, h.items[k]).Ok? then
        Decoded(Reader(h.metadata, map k | k in h.items :: DecodeTensor(file, dataStart, h.items[k]).value))
      else
        TensorsFailed(map k | k in h.items && DecodeTensor(file, dataStart, h.items[k]).Err?
                            :: DecodeTensor(file, dataStart, h.items[k]).error)
  }

  /** A file written as the layout prescribes (length prefix, metadata block, data region holding
      every described tensor) opens to exactly those tensors and that metadata. */
  lemma OpenRoundTrip(meta: seq<u8>, data: seq<u8>, parse: seq<u8> -> Option<Header>,
                      h: Header, ts: map<string, Tensor>)
    requires |meta| < U64_LIMIT && parse(meta) == Some(h)
    requires h.items.Keys == ts.Keys
    requires forall k :: k in ts ==> Describes(h.items[k], ts[k], data)
    ensures Open(LeBytes(|meta|, 8) + meta + data, parse) == Decoded(Reader(h.metadata, ts))
  {
    var file := LeBytes(|meta|, 8) + meta + data;
    var dataStart := DataStartOf(meta, data, parse);
    assert file[dataStart..] == data;
    forall k | k in h.items
      ensures DecodeTensor(file, dataStart, h.items[k]) == Ok(ts[k])
    {
      RoundTrip(file, dataStart, h.items[k], ts[k]);
    }
    OpenAllDecoded(file, parse, h, ts);
  }

  // Helpers for OpenRoundTrip: where the data region of such a file starts, and the outcome of
  // `Open` once every tensor is known to decode.

  lemma DataStartOf(meta: seq<u8>, data: seq<u8>, parse: seq<u8> -> Option<Header>) returns (dataStart: nat)
    requires |meta| < U64_LIMIT
    ensures var file := LeBytes(|meta|, 8) + meta + data;
            && |file| >= 8 && dataStart == 8 + U64FromLe(file[..8]) == 8 + |meta|
            && ReadHeader(file, parse) == match parse(meta) case None => Err(InvalidJson) case Some(h) => Ok(h)
  {
    var file := LeBytes(|meta|, 8) + meta + data;
    HeaderRoundTrip(meta, data, parse);
    assert file[..8] == LeBytes(|meta|, 8);
    U64FromLeOfLeBytes(|meta|);
    dataStart := 8 + |meta|;
  }

  lemma OpenAllDecoded(file: seq<u8>, parse: seq<u8> -> Option<Header>, h: Header, ts: map<string, Tensor>)
    requires ReadHeader(file, parse) == Ok(h) && |file| >= 8
    requires h.items.Keys == ts.Keys
    requires forall k :: k in h.items ==> DecodeTensor(file, 8 + U64FromLe(file[..8]), h.items[k]) == Ok(ts[k])
    ensures Open(file, parse) == Decoded(Reader(h.metadata, ts))
  {
    var dataStart := 8 + U64FromLe(file[..8]);
    var m := map k | k in h.items :: DecodeTensor(file, dataStart, h.items[k]).value;
    assert m == ts;
  }

  // Concrete evidence. The file below has N = 2, the metadata block `{}` and the four-byte data
  // region [7, 9, 1, 0].

  function SampleFile(): seq<u8> {
    [2, 0, 0, 0, 0, 0, 0, 0, 0x7B, 0x7D, 7, 9, 1, 0]
  }

  /** `U8` with range [0, 2]: the layout means the data bytes [7, 9]; the program reads three
      bytes (one past `end`) from the start of the file, i.e. the length prefix. */
  lemma U8Counterexample(shape: seq<usize>)
    ensures Tensors.DecodeTensor(SampleFile(), Descriptor("U8", shape, [0, 2])) == Ok(U8([2, 0, 0], shape))
    ensures DecodeTensor(SampleFile(), 10, Descriptor("U8", shape, [0, 2])) == Ok(U8([7, 9], shape))
  {
    assert SampleFile()[..3] == [2, 0, 0];
    assert SampleFile()[10..12] == [7, 9];
  }

  /** `F16` with range [2, 4]: the layout means the word 0x0001 at data offset 2; the program
      seeks to file offset 2, inside the length prefix, and reads 0x0000. */
  lemma HalfCounterexample(shape: seq<usize>)
    ensures Tensors.DecodeTensor(SampleFile(), Descriptor("F16", shape, [2, 4])) == Ok(F16([0], shape))
    ensures DecodeTensor(SampleFile(), 10, Descriptor("F16", shape, [2, 4])) == Ok(F16([1], shape))
  {
    var file := SampleFile();
    assert file[2..4] == [0, 0];
    assert U16s([0, 0]) == [0] by { assert [0 as u8, 0][2..] == []; }
    assert file[12..14] == [1, 0];
    assert U16s([1, 0]) == [1] by { assert [1 as u8, 0][2..] == []; }
  }

  /** `F32` with range [0, 2]: two bytes are not a whole `f32`, yet the program accepts the range
      and returns an empty tensor where the layout calls for an alignment failure. */
  lemma F32Counterexample(shape: seq<usize>)
    ensures Tensors.DecodeTensor(SampleFile(), Descriptor("F32", shape, [0, 2])) == Ok(F32([], shape))
    ensures DecodeTensor(SampleFile(), 10, Descriptor("F32", shape, [0, 2])) == Err(InvalidAlignment)
  {
  }
}
