/** Byte-level encoding used by the DRM builder: unsigned bytes, little-endian
    32-bit words (struct formats 'B' and '<I') and zero runs. */
module Bytes {

  type u8 = x: int | 0 <= x < 0x100
  type u32 = x: int | 0 <= x < 0x1_0000_0000

  const U32End: int := 0x1_0000_0000

  /** True when struct.pack('<I', x) accepts x. */
  predicate IsU32(x: int) {
    0 <= x < U32End
  }

  /** struct.pack('<I', x): four bytes, least significant first. */
  function U32Le(x: u32): (r: seq<u8>)
    ensures |r| == 4
  {
    [x % 0x100, x / 0x100 % 0x100, x / 0x1_0000 % 0x100, x / 0x100_0000]
  }

  /** struct.unpack('<I', s[at..at+4]). */
  function ReadU32Le(s: seq<u8>, at: nat): (r: u32)
    requires at + 4 <= |s|
  {
    (s[at] as int) + 0x100 * (s[at + 1] as int) + 0x1_0000 * (s[at + 2] as int) + 0x100_0000 * (s[at + 3] as int)
  }

  /** Decoding an encoded word gives the word back. */
  lemma {:induction false} U32RoundTrip(x: u32)
    ensures ReadU32Le(U32Le(x), 0) == x
  {
    var a := x / 0x100;
    var b := a / 0x100;
    var c := b / 0x100;
    assert x / 0x1_0000 == b && x / 0x100_0000 == c;
    assert x == 0x100 * a + x % 0x100 && a == 0x100 * b + a % 0x100 && b == 0x100 * c + b % 0x100;
  }

  /** Two different words never encode to the same bytes. */
  lemma {:induction false} U32Injective(x: u32, y: u32)
    requires U32Le(x) == U32Le(y)
    ensures x == y
  {
    U32RoundTrip(x);
    U32RoundTrip(y);
  }

  /** A word read at the position where it was written, whatever surrounds it. */
  lemma {:induction false} ReadU32Within(pre: seq<u8>, x: u32, post: seq<u8>)
    ensures ReadU32Le(pre + U32Le(x) + post, |pre|) == x
  {
    var s := pre + U32Le(x) + post;
    assert s[|pre|..|pre| + 4] == U32Le(x);
    U32RoundTrip(x);
  }

  /** Reading a word only looks at the four bytes it covers. */
  lemma {:induction false} ReadU32Local(s: seq<u8>, t: seq<u8>, at: nat, tAt: nat)
    requires at + 4 <= |s| && tAt + 4 <= |t|
    requires s[at..at + 4] == t[tAt..tAt + 4]
    ensures ReadU32Le(s, at) == ReadU32Le(t, tAt)
  {
    assert s[at] == s[at..at + 4][0] && t[tAt] == t[tAt..tAt + 4][0];
    assert s[at + 1] == s[at..at + 4][1] && t[tAt + 1] == t[tAt..tAt + 4][1];
    assert s[at + 2] == s[at..at + 4][2] && t[tAt + 2] == t[tAt..tAt + 4][2];
    assert s[at + 3] == s[at..at + 4][3] && t[tAt + 3] == t[tAt..tAt + 4][3];
  }

  /** The word whose encoding occupies s[at..at+4]. */
  lemma {:induction false} ReadEncodedU32(s: seq<u8>, at: nat, x: u32)
    requires at + 4 <= |s| && s[at..at + 4] == U32Le(x)
    ensures ReadU32Le(s, at) == x
  {
    ReadU32Local(s, U32Le(x), at, 0);
    U32RoundTrip(x);
  }

  /** n zero bytes, as written one at a time by a padding loop. */
  function Zeros(n: nat): (r: seq<u8>)
    ensures |r| == n
    ensures forall i :: 0 <= i < n ==> r[i] == 0
  {
    seq(n, _ => 0)
  }

  predicate AllZero(s: seq<u8>) {
    forall i :: 0 <= i < |s| ==> s[i] == 0
  }

  /** Positions from up to to of s are all zero bytes. */
  predicate ZeroSpan(s: seq<u8>, from: nat, to: nat) {
    from <= to <= |s| && forall j :: from <= j < to ==> s[j] == 0
  }

  /** Concatenation regroups freely. */
  lemma {:induction false} Assoc<T>(a: seq<T>, b: seq<T>, c: seq<T>)
    ensures a + b + c == a + (b + c)
  {
  }

  lemma {:induction false} EmptyConcat<T>(a: seq<T>)
    ensures [] + a == a
  {
  }

  /** A non-empty sequence is its prefix followed by its last element. */
  lemma {:induction false} InitAndLast<T>(s: seq<T>)
    requires s != []
    ensures s == s[..|s| - 1] + [s[|s| - 1]]
  {
  }

  /** t occurs in s starting at index at. */
  predicate Embeds<T(==)>(s: seq<T>, at: nat, t: seq<T>) {
    at + |t| <= |s| && forall j :: 0 <= j < |t| ==> s[at + j] == t[j]
  }

  lemma {:induction false} EmbedsConcat<T>(a: seq<T>, b: seq<T>)
    ensures Embeds(a + b, 0, a) && Embeds(a + b, |a|, b)
  {
  }

  lemma {:induction false} EmbedsTrans<T>(s: seq<T>, at: nat, t: seq<T>, tAt: nat, u: seq<T>)
    requires Embeds(s, at, t) && Embeds(t, tAt, u)
    ensures Embeds(s, at + tAt, u)
  {
    forall j | 0 <= j < |u| ensures s[at + tAt + j] == u[j] {
      assert s[at + (tAt + j)] == t[tAt + j];
    }
  }

  /** A word read inside an embedded part reads the same as in the part. */
  lemma {:induction false} ReadEmbedded(s: seq<u8>, at: nat, t: seq<u8>, off: nat)
    requires Embeds(s, at, t) && off + 4 <= |t|
    ensures ReadU32Le(s, at + off) == ReadU32Le(t, off)
  {
    assert s[at + off] == t[off] && s[at + off + 1] == t[off + 1];
    assert s[at + off + 2] == t[off + 2] && s[at + off + 3] == t[off + 3];
  }
}
