/** The builder's two pieces of size arithmetic: rounding an offset up to an
    alignment boundary (next_valid_offset) and the size of a payload's
    relocation table (get_reloc_size). */
module Offsets {
  import opened Bytes
  import opened Bits

  /** `(offset + align - 1) & ~(align - 1)`: offset rounded up to a multiple
      of the power of two align. Clearing the low bits of a non-negative s is
      subtracting s % align (NextValidOffsetIsMask proves this against the
      bit-level MaskLow), which is the form used here. */
  function NextValidOffset(offset: nat, align: nat): (r: nat)
    requires IsPow2(align)
    ensures r % align == 0
    ensures offset <= r < offset + align
    ensures offset % align == 0 ==> r == offset
  {
    RoundUpFacts(offset, align);
    MaskLowIsRoundDown(offset + align - 1, align);
    (offset + align - 1) - (offset + align - 1) % align
  }

  /** The arithmetic form above is the bitwise `& ~(align - 1)`. */
  lemma {:induction false} NextValidOffsetIsMask(offset: nat, align: nat)
    requires IsPow2(align)
    ensures NextValidOffset(offset, align) == MaskLow(offset + align - 1, align)
  {
    MaskLowIsRoundDown(offset + align - 1, align);
  }

  lemma {:induction false} RoundUpFacts(offset: nat, align: nat)
    requires IsPow2(align)
    ensures MaskLow(offset + align - 1, align) % align == 0
    ensures offset <= MaskLow(offset + align - 1, align) < offset + align
    ensures offset % align == 0 ==> MaskLow(offset + align - 1, align) == offset
  {
    var s := offset + align - 1;
    MaskLowIsRoundDown(s, align);
    DivModUnique(s - s % align, align, s / align, 0);
    if offset % align == 0 {
      DivModUnique(s, align, offset / align, align - 1);
    }
  }

  /** No multiple of align lies in [offset, NextValidOffset(offset, align)):
      the rounding goes to the nearest boundary, not just to some boundary. */
  lemma {:induction false} NextValidOffsetIsLeast(offset: nat, align: nat, m: nat)
    requires IsPow2(align) && m % align == 0 && m >= offset
    ensures m >= NextValidOffset(offset, align)
  {
    var r := NextValidOffset(offset, align);
    if m < r {
      MultiplesApart(m, r, align);
    }
  }

  /** Rounding an aligned base plus k equals the base plus k rounded. */
  lemma {:induction false} NextValidOffsetShift(base: nat, k: nat, align: nat)
    requires IsPow2(align) && base % align == 0
    ensures NextValidOffset(base + k, align) == base + NextValidOffset(k, align)
  {
    var r, q := NextValidOffset(base + k, align), NextValidOffset(k, align);
    SumOfMultiples(base, q, align);
    NextValidOffsetIsLeast(base + k, align, base + q);
    DifferenceOfMultiples(r, base, align);
    NextValidOffsetIsLeast(k, align, r - base);
  }

  /** The five counts at the start of a payload: internal, external, 16-bit-id,
      32-bit-id and pointer relocations. */
  datatype RelocCounts = RelocCounts(intern: u32, extern: u32, id16: u32, id32: u32, ptr: u32)

  /** get_reloc_size: the relocation table's byte size, read from the five
      little-endian counts in the payload's first 20 bytes. */
  function RelocSize(payload: seq<u8>): (r: nat)
    requires |payload| >= 20
    ensures r >= 0x14
  {
    RelocTableSize(RelocCounts(ReadU32Le(payload, 0), ReadU32Le(payload, 4), ReadU32Le(payload, 8),
                               ReadU32Le(payload, 12), ReadU32Le(payload, 16)))
  }

  /** Eight bytes per internal, external and 16-bit-id relocation, four per
      32-bit-id and pointer relocation, after the 20-byte count header. */
  function RelocTableSize(c: RelocCounts): (r: nat)
    ensures r >= 0x14
  {
    0x14 + c.intern * 8 + c.extern * 8 + c.id16 * 8 + c.id32 * 4 + c.ptr * 4
  }

  /** The header the engine's tools write in front of a relocatable payload. */
  function RelocHeader(c: RelocCounts): (r: seq<u8>)
    ensures |r| == 20
  {
    U32Le(c.intern) + U32Le(c.extern) + U32Le(c.id16) + U32Le(c.id32) + U32Le(c.ptr)
  }

  /** get_reloc_size reads back the counts of the header it finds, whatever
      follows the header. */
  lemma {:induction false} RelocSizeOfHeader(c: RelocCounts, rest: seq<u8>)
    ensures RelocSize(RelocHeader(c) + rest) == RelocTableSize(c)
  {
    var p := RelocHeader(c) + rest;
    ReadEncodedU32(p, 0, c.intern);
    ReadEncodedU32(p, 4, c.extern);
    ReadEncodedU32(p, 8, c.id16);
    ReadEncodedU32(p, 12, c.id32);
    ReadEncodedU32(p, 16, c.ptr);
  }
}
