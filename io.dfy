/** The backing file as an in-memory byte sequence with a read cursor, and the three reading
    helpers of `src/lib.rs` (`read_bytes`, `read_bytes_u16`, `read_bytes_f32`) together with the
    library reads they rest on (`Read::read_exact`, `ReadBytesExt::read_u16_into`,
    `ReadBytesExt::read_f32_into`, `Seek::seek`). */
module Io {
  import opened Bytes
  import opened Errors

  /** Whether reading `size` bytes at cursor `pos` succeeds: an empty read always does, even
      with the cursor past the end of the file. */
  predicate Fits(contents: seq<u8>, pos: nat, size: nat) {
    size == 0 || pos + size <= |contents|
  }

  /** The bytes that a successful read of `size` bytes at `pos` yields. */
  function Slice(contents: seq<u8>, pos: nat, size: nat): (r: seq<u8>)
    requires Fits(contents, pos, size)
    ensures |r| == size
    ensures forall i :: 0 <= i < size ==> r[i] == contents[pos + i]
  {
    if size == 0 then [] else contents[pos..pos + size]
  }

  /** Where the cursor rests after a read that ran out of bytes: at the end of the file, or
      where it was when a seek had already put it past the end. */
  function EofPos(contents: seq<u8>, pos: nat): (p: nat)
    ensures p >= pos && p >= |contents|
    ensures pos <= |contents| ==> p == |contents|
  {
    if pos < |contents| then |contents| else pos
  }

  /** An open, read-only handle on a file: the file's bytes and the handle's own cursor. */
  class FileHandle {
    const contents: seq<u8>
    var pos: nat

    /** `File::open`: a fresh handle has its cursor at offset 0. */
    constructor Open(contents: seq<u8>)
      ensures this.contents == contents && pos == 0
    {
      this.contents := contents;
      pos := 0;
    }

    /** `seek(SeekFrom::Start(offset))`. The offset goes to the operating system as a signed
        64-bit value, so one of 2^63 or more is rejected and the cursor stays put; any smaller
        offset is accepted, even past the end of the file, where later reads find no bytes. */
    method Seek(offset: nat) returns (r: Result<()>)
      modifies this
      ensures r.Ok? <==> offset < I64_LIMIT
      ensures r.Ok? ==> pos == offset
      ensures r.Err? ==> r.error == InvalidSeek && pos == old(pos)
    {
      if offset >= I64_LIMIT {
        return Err(InvalidSeek);
      }
      pos := offset;
      r := Ok(());
    }

    /** `read_exact`: fills `buf` from the cursor, or fails with `UnexpectedEof` when the file
        ends first, leaving the cursor at the end and `buf` unspecified. */
    method ReadExact(buf: array<u8>) returns (r: Result<()>)
      modifies this, buf
      ensures r.Ok? <==> Fits(contents, old(pos), buf.Length)
      ensures r.Ok? ==> pos == old(pos) + buf.Length && buf[..] == Slice(contents, old(pos), buf.Length)
      ensures r.Err? ==> r.error == UnexpectedEof && pos == EofPos(contents, old(pos))
    {
      var i := 0;
      while i < buf.Length
        invariant 0 <= i <= buf.Length
        invariant pos == old(pos) + i
        invariant i > 0 ==> pos <= |contents|
        invariant forall k :: 0 <= k < i ==> buf[k] == contents[old(pos) + k]
      {
        if pos >= |contents| {
          return Err(UnexpectedEof);
        }
        buf[i] := contents[pos];
        pos := pos + 1;
        i := i + 1;
      }
      r := Ok(());
    }

    /** `read_u16_into::<LittleEndian>`: reads exactly `2 * dst.Length` bytes, then turns each
        byte pair into one little-endian 16-bit word of `dst`. */
    method ReadU16Into(dst: array<u16>) returns (r: Result<()>)
      modifies this, dst
      ensures r.Ok? <==> Fits(contents, old(pos), 2 * dst.Length)
      ensures r.Ok? ==> (pos == old(pos) + 2 * dst.Length &&
                         dst[..] == U16s(Slice(contents, old(pos), 2 * dst.Length)))
      ensures r.Err? ==> r.error == UnexpectedEof && pos == EofPos(contents, old(pos))
    {
      var raw := new u8[2 * dst.Length];
      r := ReadExact(raw);
      if r.Err? {
        return;
      }
      ghost var bytes := raw[..];
      assert bytes == Slice(contents, old(pos), 2 * dst.Length);
      var i := 0;
      while i < dst.Length
        modifies dst
        invariant 0 <= i <= dst.Length
        invariant raw[..] == bytes
        invariant forall k :: 0 <= k < i ==> dst[k] == raw[2 * k] as int + 256 * raw[2 * k + 1] as int
      {
        dst[i] := Le16(raw[2 * i], raw[2 * i + 1]);
        i := i + 1;
      }
      forall k | 0 <= k < dst.Length
        ensures dst[k] == U16s(raw[..])[k]
      {
        U16sAt(raw[..], k);
      }
      assert dst[..] == U16s(raw[..]);
    }

    /** `read_f32_into::<LittleEndian>`: reads exactly `4 * dst.Length` bytes, then turns each
        group of four into the bit pattern of one little-endian `f32` of `dst`. */
    method ReadF32Into(dst: array<u32>) returns (r: Result<()>)
      modifies this, dst
      ensures r.Ok? <==> Fits(contents, old(pos), 4 * dst.Length)
      ensures r.Ok? ==> (pos == old(pos) + 4 * dst.Length &&
                         dst[..] == U32s(Slice(contents, old(pos), 4 * dst.Length)))
      ensures r.Err? ==> r.error == UnexpectedEof && pos == EofPos(contents, old(pos))
    {
      var raw := new u8[4 * dst.Length];
      r := ReadExact(raw);
      if r.Err? {
        return;
      }
      ghost var bytes := raw[..];
      assert bytes == Slice(contents, old(pos), 4 * dst.Length);
      var i := 0;
      while i < dst.Length
        modifies dst
        invariant 0 <= i <= dst.Length
        invariant raw[..] == bytes
        invariant forall k :: 0 <= k < i ==> dst[k] == raw[4 * k] as int + 0x100 * raw[4 * k + 1] as int
                                                + 0x1_0000 * raw[4 * k + 2] as int + 0x100_0000 * raw[4 * k + 3] as int
      {
        dst[i] := Le32(raw[4 * i], raw[4 * i + 1], raw[4 * i + 2], raw[4 * i + 3]);
        i := i + 1;
      }
      forall k | 0 <= k < dst.Length
        ensures dst[k] == U32s(raw[..])[k]
      {
        U32sAt(raw[..], k);
      }
      assert dst[..] == U32s(raw[..]);
    }
  }

  /** `read_bytes`: a zeroed buffer of `size` bytes filled by `read_exact`. */
  method ReadBytes(f: FileHandle, size: nat) returns (r: Result<seq<u8>>)
    modifies f
    ensures r.Ok? <==> Fits(f.contents, old(f.pos), size)
    ensures r.Ok? ==> r.value == Slice(f.contents, old(f.pos), size) && f.pos == old(f.pos) + size
    ensures r.Err? ==> r.error == UnexpectedEof && f.pos == EofPos(f.contents, old(f.pos))
  {
    var buffer := new u8[size];
    var read := f.ReadExact(buffer);
    if read.Err? {
      return Err(read.error);
    }
    r := Ok(buffer[..]);
  }

  /** `read_bytes_u16`: `count` little-endian 16-bit words read from the cursor. */
  method ReadBytesU16(f: FileHandle, count: nat) returns (r: Result<seq<u16>>)
    modifies f
    ensures r.Ok? <==> Fits(f.contents, old(f.pos), 2 * count)
    ensures r.Ok? ==> (r.value == U16s(Slice(f.contents, old(f.pos), 2 * count)) &&
                       f.pos == old(f.pos) + 2 * count)
    ensures r.Err? ==> r.error == UnexpectedEof && f.pos == EofPos(f.contents, old(f.pos))
  {
    var buffer := new u16[count];
    var read := f.ReadU16Into(buffer);
    if read.Err? {
      return Err(read.error);
    }
    r := Ok(buffer[..]);
  }

  /** `read_bytes_f32`: the bit patterns of `count` little-endian `f32` values read from the
      cursor. */
  method ReadBytesF32(f: FileHandle, count: nat) returns (r: Result<seq<u32>>)
    modifies f
    ensures r.Ok? <==> Fits(f.contents, old(f.pos), 4 * count)
    ensures r.Ok? ==> (r.value == U32s(Slice(f.contents, old(f.pos), 4 * count)) &&
                       f.pos == old(f.pos) + 4 * count)
    ensures r.Err? ==> r.error == UnexpectedEof && f.pos == EofPos(f.contents, old(f.pos))
  {
    var buffer := new u32[count];
    var read := f.ReadF32Into(buffer);
    if read.Err? {
      return Err(read.error);
    }
    r := Ok(buffer[..]);
  }
}
