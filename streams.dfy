/** Sequential binary streams and the splicer's guarded copy and padding
    steps (stream_copy, pad_to). An output stream is opened empty and only
    ever appended to, so its cursor is its length. An input stream is a file
    opened for reading: a fixed byte sequence and a cursor that seek moves
    freely, even past the end. */
module Streams {
  import opened Bytes
  import opened Errors

  /** An output stream: io.BytesIO() or a file opened with "wb". */
  class Writer {
    var data: seq<u8>

    constructor ()
      ensures data == []
    {
      data := [];
    }

    /** f.tell() */
    function Tell(): nat
      reads this
    {
      |data|
    }

    /** write_u8 */
    method WriteU8(b: u8)
      modifies this
      ensures data == old(data) + [b]
    {
      data := data + [b];
    }

    /** write_u32 */
    method WriteU32(x: u32)
      modifies this
      ensures data == old(data) + U32Le(x)
    {
      data := data + U32Le(x);
    }

    /** f.write(bytes) */
    method Write(bytes: seq<u8>)
      modifies this
      ensures data == old(data) + bytes
    {
      data := data + bytes;
    }
  }

  /** The bytes f.read(n) returns at cursor pos: at most n, fewer near the end
      of the file, none at or past it. */
  function ReadAt(data: seq<u8>, pos: nat, n: nat): (r: seq<u8>)
    ensures |r| <= n
    ensures pos + n <= |data| ==> r == data[pos..pos + n]
    ensures pos + n > |data| ==> |r| == if pos < |data| then |data| - pos else 0
  {
    if pos >= |data| then []
    else if pos + n <= |data| then data[pos..pos + n]
    else data[pos..]
  }

  /** An input stream: a file opened with "rb". */
  class Reader {
    const data: seq<u8>
    var pos: nat

    constructor (contents: seq<u8>)
      ensures data == contents && pos == 0
    {
      data := contents;
      pos := 0;
    }

    /** f.tell() */
    function Tell(): nat
      reads this
    {
      pos
    }

    /** f.seek(p) */
    method Seek(p: nat)
      modifies this
      ensures pos == p
    {
      pos := p;
    }

    /** f.read(n) */
    method Read(n: nat) returns (bytes: seq<u8>)
      modifies this
      ensures bytes == ReadAt(data, old(pos), n)
      ensures pos == old(pos) + |bytes|
    {
      bytes := ReadAt(data, pos, n);
      pos := pos + |bytes|;
    }

    /** read_u32: four bytes unpacked little-endian; struct.unpack fails when
        fewer than four remain. */
    method ReadU32() returns (r: Result<u32>)
      modifies this
      ensures old(pos) + 4 <= |data| ==> r == Ok(ReadU32Le(data, old(pos))) && pos == old(pos) + 4
      ensures old(pos) + 4 > |data| ==> r == Err(StructError)
    {
      var bytes := Read(4);
      if |bytes| < 4 {
        return Err(StructError);
      }
      ReadU32Local(data, bytes, old(pos), 0);
      r := Ok(ReadU32Le(bytes, 0));
    }
  }

  /** stream_copy: with both cursors at start and start < end, copies what
      src.read(end - start) yields; any other state is fatal. */
  method StreamCopy(src: Reader, dest: Writer, start: nat, end: nat) returns (r: Outcome)
    modifies src, dest
    ensures r == CopyCheck(old(src.pos), |old(dest.data)|, start, end)
    ensures r.Pass? ==> dest.data == old(dest.data) + ReadAt(src.data, start, end - start)
    ensures r.Pass? ==> src.pos == start + |ReadAt(src.data, start, end - start)|
  {
    if src.Tell() != start {
      return Fail(BuildError(SourceCursorMismatch));
    }
    if dest.Tell() != start {
      return Fail(BuildError(DestCursorMismatch));
    }
    if start >= end {
      return Fail(BuildError(EmptyRange));
    }
    var bytes := src.Read(end - start);
    dest.Write(bytes);
    r := Pass;
  }

  /** The three guards of stream_copy, in the order it tests them. */
  function CopyCheck(srcPos: nat, destPos: nat, start: nat, end: nat): (r: Outcome)
    ensures r.Pass? <==> srcPos == start && destPos == start && start < end
  {
    if srcPos != start then Fail(BuildError(SourceCursorMismatch))
    else if destPos != start then Fail(BuildError(DestCursorMismatch))
    else if start >= end then Fail(BuildError(EmptyRange))
    else Pass
  }

  /** pad_to as written: fatal when the cursor is at or past target (equal
      included); otherwise zero bytes up to target. */
  method PadTo(f: Writer, target: nat) returns (r: Outcome)
    modifies f
    ensures r.Pass? <==> |old(f.data)| < target
    ensures r.Fail? ==> r.error == BuildError(PadBackward) && f.data == old(f.data)
    ensures r.Pass? ==> f.data == old(f.data) + Zeros(target - |old(f.data)|)
  {
    if f.Tell() >= target {
      return Fail(BuildError(PadBackward));
    }
    ghost var start := f.data;
    while f.Tell() != target
      invariant |start| <= |f.data| <= target
      invariant f.data == start + Zeros(|f.data| - |start|)
      decreases target - |f.data|
    {
      f.WriteU8(0);
    }
    r := Pass;
  }

  /** pad_to corrected to accept a cursor already at target: fatal only when
      the cursor is past it, and then nothing is written. */
  method PadUpTo(f: Writer, target: nat) returns (r: Outcome)
    modifies f
    ensures r.Pass? <==> |old(f.data)| <= target
    ensures r.Fail? ==> r.error == BuildError(PadBackward) && f.data == old(f.data)
    ensures r.Pass? ==> f.data == old(f.data) + Zeros(target - |old(f.data)|)
  {
    if f.Tell() > target {
      return Fail(BuildError(PadBackward));
    }
    ghost var start := f.data;
    while f.Tell() != target
      invariant |start| <= |f.data| <= target
      invariant f.data == start + Zeros(|f.data| - |start|)
      decreases target - |f.data|
    {
      f.WriteU8(0);
    }
    r := Pass;
  }
}
