/** Tensors and the per-tensor decode step of `Reader::from_file`: the closure that, for one
    tensor name, opens its own handle on the file, reads the byte range its descriptor names
    and builds a typed `Tensor`. */
module Tensors {
  import opened Bytes
  import opened Errors
  import opened Io

  /** A decoded tensor: an element buffer of the dtype's width and a copy of the shape.
      Half-precision and single-precision elements are kept as raw bit patterns. */
  datatype Tensor =
    | U8(bytes: seq<u8>, shape: seq<usize>)
    | F16(bits16: seq<u16>, shape: seq<usize>)
    | Bf16(bits16: seq<u16>, shape: seq<usize>)
    | F32(bits32: seq<u32>, shape: seq<usize>)
  {
    /** `Tensor::shape`: the shape whatever the element type. */
    function Shape(): (s: seq<usize>)
      ensures s == shape
    {
      match this
      case U8(_, s) => s
      case F16(_, s) => s
      case Bf16(_, s) => s
      case F32(_, s) => s
    }
  }

  /** One entry of the metadata table, as the JSON deserializer produced it. The source does
      not check that `data_offsets` has two entries nor that `start <= end`. */
  datatype Descriptor = Descriptor(dtype: string, shape: seq<usize>, dataOffsets: seq<usize>)

  predicate SupportedDtype(dtype: string) {
    dtype == "U8" || dtype == "F16" || dtype == "BF16" || dtype == "F32"
  }

  /** The result of decoding one descriptor against the whole file, exactly as the source's
      per-key closure does it: `U8` reads `end - start + 1` bytes from offset 0 of a fresh handle
      without seeking; `F16`, `BF16` and `F32` seek to the absolute file offset `start`; `F32`
      checks divisibility by 2 but reads `(end - start) / 4` words. The seek fails, and its
      `unwrap` panics, for a `start` of 2^63 or more. */
  function DecodeTensor(file: seq<u8>, d: Descriptor): (r: Result<Tensor>)
    ensures r.Err? ==> r.error.IsPanic()
    ensures r.Ok? ==> SupportedDtype(d.dtype) && |d.dataOffsets| >= 2 && r.value.Shape() == d.shape
  {
    if |d.dataOffsets| < 2 then Err(IndexOutOfBounds)
    else
      var start: nat, end: nat := d.dataOffsets[0], d.dataOffsets[1];
      if d.dtype == "U8" then
        if end < start then Err(SubtractOverflow)
        else if end - start + 1 >= U64_LIMIT then Err(AddOverflow)
        else if !Fits(file, 0, end - start + 1) then Err(UnwrapEof)
        else Ok(U8(Slice(file, 0, end - start + 1), d.shape))
      else if d.dtype == "F16" then
        if end < start then Err(SubtractOverflow)
        else if (end - start) % 2 != 0 then Err(InvalidAlignment)
        else if start >= I64_LIMIT then Err(UnwrapSeek)
        else if !Fits(file, start, 2 * ((end - start) / 2)) then Err(UnwrapEof)
        else Ok(F16(U16s(Slice(file, start, 2 * ((end - start) / 2))), d.shape))
      else if d.dtype == "BF16" then
        if end < start then Err(SubtractOverflow)
        else if (end - start) % 2 != 0 then Err(InvalidAlignment)
        else if start >= I64_LIMIT then Err(UnwrapSeek)
        else if !Fits(file, start, 2 * ((end - start) / 2)) then Err(UnwrapEof)
        else Ok(Bf16(U16s(Slice(file, start, 2 * ((end - start) / 2))), d.shape))
      else if d.dtype == "F32" then
        if end < start then Err(SubtractOverflow)
        else if (end - start) % 2 != 0 then Err(InvalidAlignment)
        else if start >= I64_LIMIT then Err(UnwrapSeek)
        else if !Fits(file, start, 4 * ((end - start) / 4)) then Err(UnwrapEof)
        else Ok(F32(U32s(Slice(file, start, 4 * ((end - start) / 4))), d.shape))
      else Err(UnsupportedDtype(d.dtype))
  }

  /** The per-key closure run against a handle of its own, opened fresh on the file. */
  method LoadTensor(file: seq<u8>, d: Descriptor) returns (r: Result<Tensor>)
    ensures r == DecodeTensor(file, d)
  {
    var f := new FileHandle.Open(file);
    if |d.dataOffsets| < 2 {
      return Err(IndexOutOfBounds);
    }
    var start: nat, end: nat := d.dataOffsets[0], d.dataOffsets[1];
    if d.dtype == "U8" {
      if end < start {
        return Err(SubtractOverflow);
      }
      var size: nat := end - start + 1;
      if size >= U64_LIMIT {
        return Err(AddOverflow);
      }
      var data := ReadBytes(f, size);
      if data.Err? {
        return Err(UnwrapEof);
      }
      r := Ok(U8(data.value, d.shape));
    } else if d.dtype == "F16" {
      if end < start {
        return Err(SubtractOverflow);
      }
      if (end - start) % 2 != 0 {
        return Err(InvalidAlignment);
      }
      var size := (end - start) / 2;
      var sought := f.Seek(start);
      if sought.Err? {
        return Err(UnwrapSeek);
      }
      var data := ReadBytesU16(f, size);
      if data.Err? {
        return Err(UnwrapEof);
      }
      r := Ok(F16(data.value, d.shape));
    } else if d.dtype == "BF16" {
      if end < start {
        return Err(SubtractOverflow);
      }
      if (end - start) % 2 != 0 {
        return Err(InvalidAlignment);
      }
      var size := (end - start) / 2;
      var sought := f.Seek(start);
      if sought.Err? {
        return Err(UnwrapSeek);
      }
      var data := ReadBytesU16(f, size);
      if data.Err? {
        return Err(UnwrapEof);
      }
      r := Ok(Bf16(data.value, d.shape));
    } else if d.dtype == "F32" {
      if end < start {
        return Err(SubtractOverflow);
      }
      if (end - start) % 2 != 0 {
        return Err(InvalidAlignment);
      }
      var size := (end - start) / 4;
      var sought := f.Seek(start);
      if sought.Err? {
        return Err(UnwrapSeek);
      }
      var data := ReadBytesF32(f, size);
      if data.Err? {
        return Err(UnwrapEof);
      }
      r := Ok(F32(data.value, d.shape));
    } else {
      r := Err(UnsupportedDtype(d.dtype));
    }
  }

  /** A descriptor without two offsets, or with a dtype outside the four supported ones, or with
      `start > end`, never decodes; a decoded tensor has the variant its dtype names and the descriptor's shape; and
      every way a single tensor fails is a panic in the source, never a returned `Err`. */
  lemma DecodedMatchesDescriptor(file: seq<u8>, d: Descriptor)
    ensures DecodeTensor(file, d).Err? ==> DecodeTensor(file, d).error.IsPanic()
    ensures |d.dataOffsets| < 2 ==> DecodeTensor(file, d) == Err(IndexOutOfBounds)
    ensures |d.dataOffsets| >= 2 && !SupportedDtype(d.dtype) ==>
              DecodeTensor(file, d) == Err(UnsupportedDtype(d.dtype))
    ensures |d.dataOffsets| >= 2 && SupportedDtype(d.dtype) && d.dataOffsets[0] > d.dataOffsets[1] ==>
              DecodeTensor(file, d) == Err(SubtractOverflow)
    ensures DecodeTensor(file, d).Ok? ==>
              var t := DecodeTensor(file, d).value;
              && t.Shape() == d.shape
              && (t.U8? <==> d.dtype == "U8")
              && (t.F16? <==> d.dtype == "F16")
              && (t.Bf16? <==> d.dtype == "BF16")
              && (t.F32? <==> d.dtype == "F32")
  {
  }

  /** A `U8` tensor holds the first `end - start + 1` bytes of the file, whatever `start` is,
      and it decodes exactly when the range is ordered and the file is that long. */
  lemma U8ReadsFromFileStart(file: seq<u8>, d: Descriptor)
    requires d.dtype == "U8" && |d.dataOffsets| >= 2
    ensures var start: nat, end: nat := d.dataOffsets[0], d.dataOffsets[1];
            && (DecodeTensor(file, d).Ok? <==>
                  start <= end && end - start + 1 < U64_LIMIT && end - start + 1 <= |file|)
            && (DecodeTensor(file, d).Ok? ==>
                  && DecodeTensor(file, d).value.bytes == file[..end - start + 1]
                  && |DecodeTensor(file, d).value.bytes| == end - start + 1)
  {
  }

  /** `F16` and `BF16`: an odd byte range is an alignment failure, a `start` the seek rejects a
      seek failure; otherwise the tensor has
      `(end - start) / 2` elements and element `i` is the little-endian word at absolute file
      offset `start + 2 * i`. */
  lemma HalfDecodesWords(file: seq<u8>, d: Descriptor)
    requires d.dtype == "F16" || d.dtype == "BF16"
    requires |d.dataOffsets| >= 2 && d.dataOffsets[0] <= d.dataOffsets[1]
    ensures var start: nat, end: nat := d.dataOffsets[0], d.dataOffsets[1];
            && (DecodeTensor(file, d) == Err(InvalidAlignment) <==> (end - start) % 2 != 0)
            && ((end - start) % 2 == 0 && start >= I64_LIMIT ==> DecodeTensor(file, d) == Err(UnwrapSeek))
            && ((end - start) % 2 == 0 ==>
                  (DecodeTensor(file, d).Ok? <==> start < I64_LIMIT && Fits(file, start, end - start)))
            && (DecodeTensor(file, d).Ok? ==>
                  var w := DecodeTensor(file, d).value.bits16;
                  && |w| == (end - start) / 2
                  && forall i :: 0 <= i < |w| ==>
                       w[i] == file[start + 2 * i] as int + 256 * file[start + 2 * i + 1] as int)
  {
    var start: nat, end: nat := d.dataOffsets[0], d.dataOffsets[1];
    var n := end - start;
    HalfCases(file, d);
    if n % 2 != 0 {
      assert DecodeTensor(file, d) == Err(InvalidAlignment);
    } else if start >= I64_LIMIT {
      assert DecodeTensor(file, d) == Err(UnwrapSeek);
    } else if !Fits(file, start, n) {
      assert DecodeTensor(file, d) == Err(UnwrapEof);
    } else {
      var w := U16s(Slice(file, start, n));
      assert DecodeTensor(file, d).value.bits16 == w;
      HalfWordsAt(file, start, n);
    }
  }

  /** `F32` fails on alignment only when the byte range is odd, and on the seek when `start` is
      2^63 or more; otherwise the tensor has
      `(end - start) / 4` elements, element `i` being the little-endian bit pattern at absolute
      file offset `start + 4 * i`. */
  lemma F32DecodesWords(file: seq<u8>, d: Descriptor)
    requires d.dtype == "F32"
    requires |d.dataOffsets| >= 2 && d.dataOffsets[0] <= d.dataOffsets[1]
    ensures var start: nat, end: nat := d.dataOffsets[0], d.dataOffsets[1];
            && (DecodeTensor(file, d) == Err(InvalidAlignment) <==> (end - start) % 2 != 0)
            && ((end - start) % 2 == 0 ==>
                  (DecodeTensor(file, d).Ok? <==> start < I64_LIMIT && Fits(file, start, 4 * ((end - start) / 4))))
            && ((end - start) % 2 == 0 && start >= I64_LIMIT ==> DecodeTensor(file, d) == Err(UnwrapSeek))
            && (DecodeTensor(file, d).Ok? ==>
                  var w := DecodeTensor(file, d).value.bits32;
                  && |w| == (end - start) / 4
                  && forall i :: 0 <= i < |w| ==>
                       w[i] == file[start + 4 * i] as int + 0x100 * file[start + 4 * i + 1] as int
                               + 0x1_0000 * file[start + 4 * i + 2] as int
                               + 0x100_0000 * file[start + 4 * i + 3] as int)
  {
    var start: nat, end: nat := d.dataOffsets[0], d.dataOffsets[1];
    F32Cases(file, d);
    var n := 4 * ((end - start) / 4);
    if (end - start) % 2 != 0 {
      assert DecodeTensor(file, d) == Err(InvalidAlignment);
    } else if start >= I64_LIMIT {
      assert DecodeTensor(file, d) == Err(UnwrapSeek);
    } else if !Fits(file, start, n) {
      assert DecodeTensor(file, d) == Err(UnwrapEof);
    } else {
      var w := U32s(Slice(file, start, n));
      assert DecodeTensor(file, d).value.bits32 == w;
      F32WordsAt(file, start, n);
    }
  }

  // Helpers for the two lemmas above: the branch of DecodeTensor a dtype selects, and the
  // words of a file range.

  lemma HalfCases(file: seq<u8>, d: Descriptor)
    requires d.dtype == "F16" || d.dtype == "BF16"
    requires |d.dataOffsets| >= 2 && d.dataOffsets[0] <= d.dataOffsets[1]
    ensures var start: nat, end: nat := d.dataOffsets[0], d.dataOffsets[1];
            DecodeTensor(file, d)
              == if (end - start) % 2 != 0 then Err(InvalidAlignment)
                 else if start >= I64_LIMIT then Err(UnwrapSeek)
                 else if !Fits(file, start, end - start) then Err(UnwrapEof)
                 else if d.dtype == "F16" then Ok(F16(U16s(Slice(file, start, end - start)), d.shape))
                 else Ok(Bf16(U16s(Slice(file, start, end - start)), d.shape))
  {
    var start: nat, end: nat := d.dataOffsets[0], d.dataOffsets[1];
    assert (end - start) % 2 == 0 ==> 2 * ((end - start) / 2) == end - start;
  }

  lemma F32Cases(file: seq<u8>, d: Descriptor)
    requires d.dtype == "F32"
    requires |d.dataOffsets| >= 2 && d.dataOffsets[0] <= d.dataOffsets[1]
    ensures var start: nat, end: nat := d.dataOffsets[0], d.dataOffsets[1];
            var n := 4 * ((end - start) / 4);
            DecodeTensor(file, d)
              == if (end - start) % 2 != 0 then Err(InvalidAlignment)
                 else if start >= I64_LIMIT then Err(UnwrapSeek)
                 else if !Fits(file, start, n) then Err(UnwrapEof)
                 else Ok(F32(U32s(Slice(file, start, n)), d.shape))
  {
  }

  lemma HalfWordsAt(file: seq<u8>, start: nat, n: nat)
    requires n % 2 == 0 && Fits(file, start, n)
    ensures var w := U16s(Slice(file, start, n));
            forall i :: 0 <= i < |w| ==> w[i] == file[start + 2 * i] as int + 256 * file[start + 2 * i + 1] as int
  {
    var raw := Slice(file, start, n);
    forall i | 0 <= i < n / 2
      ensures U16s(raw)[i] == file[start + 2 * i] as int + 256 * file[start + 2 * i + 1] as int
    {
      U16sAt(raw, i);
    }
  }

  lemma F32WordsAt(file: seq<u8>, start: nat, n: nat)
    requires n % 4 == 0 && Fits(file, start, n)
    ensures var w := U32s(Slice(file, start, n));
            forall i :: 0 <= i < |w| ==>
              w[i] == file[start + 4 * i] as int + 0x100 * file[start + 4 * i + 1] as int
                      + 0x1_0000 * file[start + 4 * i + 2] as int + 0x100_0000 * file[start + 4 * i + 3] as int
  {
    var raw := Slice(file, start, n);
    forall i | 0 <= i < n / 4
      ensures U32s(raw)[i] == file[start + 4 * i] as int + 0x100 * file[start + 4 * i + 1] as int
                              + 0x1_0000 * file[start + 4 * i + 2] as int + 0x100_0000 * file[start + 4 * i + 3] as int
    {
      U32sAt(raw, i);
    }
  }

  /** When an `F32` range is two bytes longer than a multiple of four, those two bytes are not
      read: the range that stops before them decodes to the same tensor. */
  lemma F32IgnoresTrailingPair(file: seq<u8>, dtype: string, shape: seq<usize>, start: usize, end: usize)
    requires dtype == "F32" && start + 2 <= end && (end - start) % 4 == 2
    ensures DecodeTensor(file, Descriptor(dtype, shape, [start, end]))
         == DecodeTensor(file, Descriptor(dtype, shape, [start, end - 2]))
  {
    TrailingPairArith(end - start);
    assert (end - 2) - start == (end - start) - 2;
    F32Cases(file, Descriptor(dtype, shape, [start, end]));
    F32Cases(file, Descriptor(dtype, shape, [start, end - 2]));
  }

  /** A range of `4k + 2` bytes passes the even-length check and yields as many words as `4k`. */
  lemma TrailingPairArith(x: nat)
    requires x % 4 == 2
    ensures x >= 2 && x % 2 == 0 && (x - 2) % 2 == 0 && (x - 2) / 4 == x / 4
  {
    var q := x / 4;
    assert x == 4 * q + 2;
    var a, b := x / 2, x % 2;
    assert x == 2 * a + b && 0 <= b < 2;
    assert 2 * (2 * q + 1 - a) == b;
    var c, e := (x - 2) / 2, (x - 2) % 2;
    assert x - 2 == 2 * c + e && 0 <= e < 2;
    assert 2 * (2 * q - c) == e;
    var f, g := (x - 2) / 4, (x - 2) % 4;
    assert x - 2 == 4 * f + g && 0 <= g < 4;
    assert 4 * (q - f) == g;
  }

  /** Words encoded little-endian at absolute file offset `start` come back as an `F16` or
      `BF16` tensor whose range is `[start, start + 2 * |w|]`. */
  lemma HalfRoundTrip(file: seq<u8>, dtype: string, shape: seq<usize>, start: usize, w: seq<u16>)
    requires dtype == "F16" || dtype == "BF16"
    requires start < I64_LIMIT && start + 2 * |w| < U64_LIMIT && start + 2 * |w| <= |file|
    requires file[start..start + 2 * |w|] == EncodeU16s(w)
    ensures DecodeTensor(file, Descriptor(dtype, shape, [start, start + 2 * |w|]))
         == Ok(if dtype == "F16" then F16(w, shape) else Bf16(w, shape))
  {
    U16sOfEncode(w);
    HalfRange(file, dtype, shape, start, w);
  }

  /** Bit patterns encoded little-endian at absolute file offset `start` come back as an `F32`
      tensor whose range is `[start, start + 4 * |w|]`. */
  lemma F32RoundTrip(file: seq<u8>, shape: seq<usize>, start: usize, w: seq<u32>)
    requires start < I64_LIMIT && start + 4 * |w| < U64_LIMIT && start + 4 * |w| <= |file|
    requires file[start..start + 4 * |w|] == EncodeU32s(w)
    ensures DecodeTensor(file, Descriptor("F32", shape, [start, start + 4 * |w|])) == Ok(F32(w, shape))
  {
    U32sOfEncode(w);
    F32Range(file, shape, start, w);
  }

  // Helpers for the two round trips: an aligned range that fits decodes to the words it holds.

  lemma HalfRange(file: seq<u8>, dtype: string, shape: seq<usize>, start: usize, w: seq<u16>)
    requires dtype == "F16" || dtype == "BF16"
    requires start < I64_LIMIT && start + 2 * |w| < U64_LIMIT && start + 2 * |w| <= |file|
    requires U16s(Slice(file, start, 2 * |w|)) == w
    ensures DecodeTensor(file, Descriptor(dtype, shape, [start, start + 2 * |w|]))
         == Ok(if dtype == "F16" then F16(w, shape) else Bf16(w, shape))
  {
    HalfCases(file, Descriptor(dtype, shape, [start, start + 2 * |w|]));
  }

  /** A whole number of 32-bit words spans an even byte count. */
  lemma QuadWidth(k: nat)
    ensures (4 * k) % 2 == 0 && (4 * k) / 4 == k
  {
    var x := 4 * k;
    var q2, r2 := x / 2, x % 2;
    assert x == 2 * q2 + r2 && 0 <= r2 < 2;
    assert 2 * (2 * k - q2) == r2;
    var q4, r4 := x / 4, x % 4;
    assert x == 4 * q4 + r4 && 0 <= r4 < 4;
    assert 4 * (k - q4) == r4;
  }

  lemma F32Range(file: seq<u8>, shape: seq<usize>, start: usize, w: seq<u32>)
    requires start < I64_LIMIT && start + 4 * |w| < U64_LIMIT && start + 4 * |w| <= |file|
    requires U32s(Slice(file, start, 4 * |w|)) == w
    ensures DecodeTensor(file, Descriptor("F32", shape, [start, start + 4 * |w|])) == Ok(F32(w, shape))
  {
    var d := Descriptor("F32", shape, [start, start + 4 * |w|]);
    var n := 4 * |w|;
    assert d.dataOffsets[1] - d.dataOffsets[0] == n;
    QuadWidth(|w|);
    assert n % 2 == 0 && 4 * (n / 4) == n && Fits(file, start, n);
    F32Cases(file, d);
    assert DecodeTensor(file, d) == Ok(F32(U32s(Slice(file, start, n)), shape));
  }
}
