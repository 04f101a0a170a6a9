/** The CDRM container make_cdrm wraps around one section's payload: a
    16-byte header, one block header declaring the block stored
    uncompressed, the payload verbatim, and (for every section but the last)
    zero padding to 16 bytes, a 'NEXT' marker and the distance from that
    marker to the next 0x800 boundary, where the next container starts. */
module Cdrm {
  import opened Bytes
  import opened Bits
  import opened Offsets
  import opened Streams
  import opened Errors

  const CdrmMagic: u32 := 0x4D52_4443    // 'CDRM'
  const NextMarker: u32 := 0x5458_454E   // 'NEXT'
  const BlockUncompressed: u32 := 1
  const HeaderSize: nat := 32
  const ContainerAlign: nat := 0x800
  /** `len << 8 | 1` must fit a u32: struct.pack refuses larger payloads. */
  const MaxPayload: nat := 0x100_0000

  /** `len << 8 | 0x1`: the block's uncompressed size above its type byte. */
  function BlockWord(len: nat): (w: u32)
    requires len < MaxPayload
    ensures w / 0x100 == len && w % 0x100 == BlockUncompressed
  {
    PowersOfTwo();
    OrDisjoint(len * 0x100, 1, 0x100);
    BitOr(len * 0x100, 1)
  }

  /** Magic, version 0, one block, no padding; then the block header: size
      word, compressed size equal to the payload length, two zero words. */
  function CdrmHeader(len: nat): (r: seq<u8>)
    requires len < MaxPayload
    ensures |r| == HeaderSize
  {
    U32Le(CdrmMagic) + U32Le(0) + U32Le(1) + U32Le(0)
      + U32Le(BlockWord(len)) + U32Le(len) + U32Le(0) + U32Le(0)
  }

  /** next_valid_offset(pos, 0x800): the first container boundary at or past
      pos. */
  function NextBoundary(pos: nat): (r: nat)
    ensures r % ContainerAlign == 0 && pos <= r < pos + ContainerAlign
    ensures pos % ContainerAlign == 0 ==> r == pos
  {
    PowersOfTwo();
    NextValidOffset(pos, ContainerAlign)
  }

  /** next_valid_offset(n, 0x10): n rounded up to 16. */
  function Round16(n: nat): (r: nat)
    ensures r % 16 == 0 && n <= r < n + 16
    ensures n % 16 == 0 ==> r == n
  {
    PowersOfTwo();
    NextValidOffset(n, 16)
  }

  /** Where the 'NEXT' marker goes: the container end rounded to 16. */
  function MarkerPos(len: nat): (m: nat)
    ensures m % 16 == 0 && HeaderSize + len <= m < HeaderSize + len + 16
  {
    Round16(HeaderSize + len)
  }

  /** The trailer's distance from the marker to the next 0x800 boundary past
      the container's own end. */
  function NextDistance(len: nat): (d: u32)
    ensures 8 <= d < 8 + ContainerAlign
  {
    NextBoundary(MarkerPos(len) + 8) - MarkerPos(len)
  }

  /** The bytes make_cdrm returns for payload p. */
  function CdrmImage(p: seq<u8>, dontWriteNext: bool): (c: seq<u8>)
    requires |p| < MaxPayload
    ensures |c| == CdrmLen(|p|, dontWriteNext)
  {
    var body := CdrmHeader(|p|) + p;
    if dontWriteNext then body
    else body + Zeros(MarkerPos(|p|) - |body|) + U32Le(NextMarker) + U32Le(NextDistance(|p|))
  }

  /** A container's length, from the payload length alone. */
  function CdrmLen(len: nat, dontWriteNext: bool): (n: nat)
    ensures HeaderSize + len <= n < HeaderSize + len + 24
  {
    if dontWriteNext then HeaderSize + len else MarkerPos(len) + 8
  }

  /** The eight header words, in the order make_cdrm writes them. */
  method WriteHeader(outstr: Writer, len: nat)
    requires len < MaxPayload
    modifies outstr
    ensures outstr.data == old(outstr.data) + CdrmHeader(len)
  {
    ghost var s := outstr.data;
    outstr.WriteU32(CdrmMagic);
    outstr.WriteU32(0);
    Assoc(s, U32Le(CdrmMagic), U32Le(0));
    outstr.WriteU32(1);
    Assoc(s, U32Le(CdrmMagic) + U32Le(0), U32Le(1));
    outstr.WriteU32(0);
    Assoc(s, U32Le(CdrmMagic) + U32Le(0) + U32Le(1), U32Le(0));
    ghost var w := U32Le(CdrmMagic) + U32Le(0) + U32Le(1) + U32Le(0);
    outstr.WriteU32(BlockWord(len));
    Assoc(s, w, U32Le(BlockWord(len)));
    outstr.WriteU32(len);
    Assoc(s, w + U32Le(BlockWord(len)), U32Le(len));
    outstr.WriteU32(0);
    Assoc(s, w + U32Le(BlockWord(len)) + U32Le(len), U32Le(0));
    outstr.WriteU32(0);
    Assoc(s, w + U32Le(BlockWord(len)) + U32Le(len) + U32Le(0), U32Le(0));
  }

  /** The loop `while len(outstr.getbuffer()) % 16 != 0: write_u8(outstr, 0)`. */
  method PadToSixteen(f: Writer)
    modifies f
    ensures f.data == old(f.data) + Zeros(Round16(|old(f.data)|) - |old(f.data)|)
  {
    PowersOfTwo();
    ghost var start := f.data;
    ghost var target := Round16(|start|);
    while |f.data| % 16 != 0
      invariant |start| <= |f.data| <= target
      invariant f.data == start + Zeros(|f.data| - |start|)
      decreases target - |f.data|
    {
      f.WriteU8(0);
    }
    NextValidOffsetIsLeast(|start|, 16, |f.data|);
  }

  /** make_cdrm: builds the container in a byte stream, padding with a loop. */
  method MakeCdrm(buf: seq<u8>, dontWriteNext: bool) returns (out: seq<u8>)
    requires |buf| < MaxPayload
    ensures out == CdrmImage(buf, dontWriteNext)
  {
    var outstr := new Writer();
    WriteHeader(outstr, |buf|);
    outstr.Write(buf);
    ghost var body := outstr.data;
    assert body == CdrmHeader(|buf|) + buf;
    if !dontWriteNext {
      PadToSixteen(outstr);
      ghost var m := MarkerPos(|buf|);
      assert |outstr.data| == m;
      assert outstr.data == body + Zeros(m - |body|);
      outstr.WriteU32(NextMarker);
      assert |outstr.data| + 4 == m + 8;
      var nextCdrm := NextBoundary(|outstr.data| + 4);
      assert nextCdrm == NextBoundary(m + 8);
      ghost var d := NextDistance(|buf|);
      assert d == nextCdrm - m;
      outstr.WriteU32(nextCdrm + 4 - |outstr.data|);
    }
    out := outstr.data;
  }

  /** Reading a container back as a loader does: check the magic, the single
      block and its "stored uncompressed" type, then take the declared number
      of bytes after the header. */
  function DecodeCdrm(c: seq<u8>): Option<seq<u8>> {
    if |c| < HeaderSize then None
    else
      var w := ReadU32Le(c, 16);
      var len := w / 0x100;
      if ReadU32Le(c, 0) != CdrmMagic || ReadU32Le(c, 8) != 1 || w % 0x100 != BlockUncompressed
         || ReadU32Le(c, 20) != len || |c| < HeaderSize + len
      then None
      else Some(c[HeaderSize..HeaderSize + len])
  }

  /** The header make_cdrm writes: magic, version 0, one block, no padding,
      size word `len << 8 | 1`, compressed size len, two zero words; the
      payload follows verbatim at offset 32. */
  lemma {:induction false} CdrmHeaderFields(p: seq<u8>, dontWriteNext: bool)
    requires |p| < MaxPayload
    ensures var c := CdrmImage(p, dontWriteNext);
      && |c| >= HeaderSize + |p|
      && ReadU32Le(c, 0) == CdrmMagic && ReadU32Le(c, 4) == 0
      && ReadU32Le(c, 8) == 1 && ReadU32Le(c, 12) == 0
      && ReadU32Le(c, 16) == |p| * 0x100 + 1 && ReadU32Le(c, 20) == |p|
      && ReadU32Le(c, 24) == 0 && ReadU32Le(c, 28) == 0
      && c[HeaderSize..HeaderSize + |p|] == p
  {
    var c := CdrmImage(p, dontWriteNext);
    var h := CdrmHeader(|p|);
    HeaderWords(|p|);
    assert Embeds(c, 0, h);
    ReadEmbedded(c, 0, h, 0);
    ReadEmbedded(c, 0, h, 4);
    ReadEmbedded(c, 0, h, 8);
    ReadEmbedded(c, 0, h, 12);
    ReadEmbedded(c, 0, h, 16);
    ReadEmbedded(c, 0, h, 20);
    ReadEmbedded(c, 0, h, 24);
    ReadEmbedded(c, 0, h, 28);
    assert c[HeaderSize..HeaderSize + |p|] == p;
  }

  lemma {:induction false} HeaderWords(len: nat)
    requires len < MaxPayload
    ensures var h := CdrmHeader(len);
      && ReadU32Le(h, 0) == CdrmMagic && ReadU32Le(h, 4) == 0
      && ReadU32Le(h, 8) == 1 && ReadU32Le(h, 12) == 0
      && ReadU32Le(h, 16) == len * 0x100 + 1 && ReadU32Le(h, 20) == len
      && ReadU32Le(h, 24) == 0 && ReadU32Le(h, 28) == 0
  {
    PowersOfTwo();
    OrDisjoint(len * 0x100, 1, 0x100);
    U32RoundTrip(CdrmMagic);
    U32RoundTrip(0);
    U32RoundTrip(1);
    U32RoundTrip(BlockWord(len));
    U32RoundTrip(len);
  }

  /** Decoding a container yields exactly the payload it was built from. */
  lemma {:induction false} CdrmRoundTrip(p: seq<u8>, dontWriteNext: bool)
    requires |p| < MaxPayload
    ensures DecodeCdrm(CdrmImage(p, dontWriteNext)) == Some(p)
  {
    CdrmHeaderFields(p, dontWriteNext);
  }

  /** Every container but the last ends in zero padding to a 16-byte
      boundary, the 'NEXT' marker there, and a distance from the marker to the
      first 0x800 boundary at or past the container's end. */
  lemma {:induction false} CdrmTrailer(p: seq<u8>)
    requires |p| < MaxPayload
    ensures var c := CdrmImage(p, false); var m := MarkerPos(|p|);
      && m % 16 == 0 && HeaderSize + |p| <= m < HeaderSize + |p| + 16
      && |c| == m + 8
      && AllZero(c[HeaderSize + |p|..m])
      && ReadU32Le(c, m) == NextMarker
      && m + ReadU32Le(c, m + 4) == NextBoundary(|c|)
  {
    var c := CdrmImage(p, false);
    var m := MarkerPos(|p|);
    var body := CdrmHeader(|p|) + p;
    assert c == body + Zeros(m - |body|) + U32Le(NextMarker) + U32Le(NextDistance(|p|));
    assert c[HeaderSize + |p|..m] == Zeros(m - |body|);
    assert c[m..m + 4] == U32Le(NextMarker);
    ReadEncodedU32(c, m, NextMarker);
    assert c[m + 4..m + 8] == U32Le(NextDistance(|p|));
    ReadEncodedU32(c, m + 4, NextDistance(|p|));
  }

  /** The last container has no trailer: it ends where its payload ends. */
  lemma {:induction false} CdrmFinalLength(p: seq<u8>)
    requires |p| < MaxPayload
    ensures |CdrmImage(p, true)| == HeaderSize + |p|
    ensures CdrmImage(p, true)[HeaderSize..] == p
  {
    CdrmHeaderFields(p, true);
  }

  /** The next container starts at the first boundary at or past this one's
      end, and strictly past it for a container with a trailer. */
  lemma {:induction false} NextStart(start: nat, plen: nat, last: bool, next: nat)
    requires start % ContainerAlign == 0
    requires next == NextBoundary(start + CdrmLen(plen, last))
    ensures start + CdrmLen(plen, last) <= next < start + CdrmLen(plen, last) + ContainerAlign
    ensures !last ==> start + CdrmLen(plen, last) < next
  {
    if !last {
      TrailedLengthOffBoundary(plen);
      ShiftByMultiple(start, CdrmLen(plen, last), ContainerAlign);
    }
  }

  /** A container with a trailer is 8 past a 16-byte boundary, so it never
      ends on a 0x800 boundary. */
  lemma {:induction false} TrailedLengthOffBoundary(len: nat)
    ensures CdrmLen(len, false) % 16 == 8
    ensures CdrmLen(len, false) % ContainerAlign != 0
  {
    var m := MarkerPos(len);
    assert m % 16 == 0;
    DivModUnique(m + 8, 16, m / 16, 8);
  }
}
