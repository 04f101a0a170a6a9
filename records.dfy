/** The TIGER archive's file records: each is four little-endian words
    (name hash, spec mask, size, packed offset) and the archive keeps them
    in a table ordered by hash. read_records reads the table and
    insert_record adds one record by appending it and sorting stably by
    hash. */
module Records {
  import opened Bytes
  import opened Errors
  import opened Streams

  const RecordSize: nat := 16

  /** One archive record. The size and packed offset of a record the
      splicer makes may exceed 32 bits; those of a record read from an
      archive never do. */
  datatype Record = Record(hash: u32, specMask: u32, size: nat, packedOffset: nat)

  /** True when write_u32 accepts every field. */
  predicate Fits(r: Record) {
    IsU32(r.size) && IsU32(r.packedOffset)
  }

  predicate AllFit(s: seq<Record>) {
    forall i :: 0 <= i < |s| ==> Fits(s[i])
  }

  /** The record whose four words start at p. */
  function RecordAt(data: seq<u8>, p: nat): (r: Record)
    requires p + RecordSize <= |data|
    ensures Fits(r)
  {
    Record(ReadU32Le(data, p), ReadU32Le(data, p + 4), ReadU32Le(data, p + 8), ReadU32Le(data, p + 12))
  }

  /** The n records of a table that starts at at. */
  function RecordsAt(data: seq<u8>, at: nat, n: nat): (r: seq<Record>)
    requires at + RecordSize * n <= |data|
    ensures |r| == n && AllFit(r)
  {
    if n == 0 then []
    else RecordsAt(data, at, n - 1) + [RecordAt(data, at + RecordSize * (n - 1))]
  }

  /** The four words the splicer writes for a record. */
  function RecordBytes(r: Record): (b: seq<u8>)
    requires Fits(r)
    ensures |b| == RecordSize
  {
    U32Le(r.hash) + U32Le(r.specMask) + U32Le(r.size) + U32Le(r.packedOffset)
  }

  /** The record table as the splicer writes it. */
  function EncodeRecords(s: seq<Record>): (b: seq<u8>)
    requires AllFit(s)
    ensures |b| == RecordSize * |s|
  {
    if s == [] then []
    else EncodeRecords(s[..|s| - 1]) + RecordBytes(s[|s| - 1])
  }

  /** read_records: count records read one word at a time from the cursor
      on. struct.unpack fails at the first word that is cut short, so the
      read fails exactly when the table runs past the end of the file. */
  method ReadRecords(f: Reader, count: nat) returns (r: Result<seq<Record>>)
    modifies f
    ensures r.Ok? <==> count == 0 || old(f.pos) + RecordSize * count <= |f.data|
    ensures r.Err? ==> r.error == StructError
    ensures r.Ok? && count > 0 ==> r.value == RecordsAt(f.data, old(f.pos), count)
    ensures r.Ok? && count == 0 ==> r.value == []
  {
    ghost var start := f.pos;
    var records: seq<Record> := [];
    for i := 0 to count
      invariant f.pos == start + RecordSize * i
      invariant i > 0 ==> start + RecordSize * i <= |f.data|
      invariant i > 0 ==> records == RecordsAt(f.data, start, i)
      invariant i == 0 ==> records == []
    {
      var hash := f.ReadU32();
      if hash.Err? {
        return Err(StructError);
      }
      var specMask := f.ReadU32();
      if specMask.Err? {
        return Err(StructError);
      }
      var size := f.ReadU32();
      if size.Err? {
        return Err(StructError);
      }
      var packedOffset := f.ReadU32();
      if packedOffset.Err? {
        return Err(StructError);
      }
      records := records + [Record(hash.value, specMask.value, size.value, packedOffset.value)];
    }
    r := Ok(records);
  }

  /** A record reads back from where its bytes were written. */
  lemma {:induction false} RecordRead(pre: seq<u8>, r: Record, post: seq<u8>)
    requires Fits(r)
    ensures RecordAt(pre + RecordBytes(r) + post, |pre|) == r
  {
    var w0, w1, w2, w3 := U32Le(r.hash), U32Le(r.specMask), U32Le(r.size), U32Le(r.packedOffset);
    var d := pre + RecordBytes(r) + post;
    assert d == pre + w0 + (w1 + w2 + w3 + post);
    ReadU32Within(pre, r.hash, w1 + w2 + w3 + post);
    assert d == (pre + w0) + w1 + (w2 + w3 + post);
    ReadU32Within(pre + w0, r.specMask, w2 + w3 + post);
    assert d == (pre + w0 + w1) + w2 + (w3 + post);
    ReadU32Within(pre + w0 + w1, r.size, w3 + post);
    assert d == (pre + w0 + w1 + w2) + w3 + post;
    ReadU32Within(pre + w0 + w1 + w2, r.packedOffset, post);
  }

  /** A record reads back from any bytes that hold its encoding. */
  lemma RecordEmbedded(d: seq<u8>, at: nat, r: Record)
    requires Fits(r) && Embeds(d, at, RecordBytes(r))
    ensures at + RecordSize <= |d| && RecordAt(d, at) == r
  {
    var rb := RecordBytes(r);
    RecordRead([], r, []);
    assert [] + rb + [] == rb;
    ReadEmbedded(d, at, rb, 0);
    ReadEmbedded(d, at, rb, 4);
    ReadEmbedded(d, at, rb, 8);
    ReadEmbedded(d, at, rb, 12);
  }

  /** A table reads back from any bytes that hold its encoding. */
  lemma {:induction false} RecordsEmbedded(d: seq<u8>, at: nat, s: seq<Record>)
    requires AllFit(s) && Embeds(d, at, EncodeRecords(s))
    ensures at + RecordSize * |s| <= |d| && RecordsAt(d, at, |s|) == s
    decreases |s|
  {
    if s != [] {
      var init, last := s[..|s| - 1], s[|s| - 1];
      assert AllFit(init) by {
        forall i | 0 <= i < |init| ensures Fits(init[i]) {
          assert init[i] == s[i];
        }
      }
      var e := EncodeRecords(init);
      var rb := RecordBytes(last);
      assert EncodeRecords(s) == e + rb;
      EmbedsConcat(e, rb);
      EmbedsTrans(d, at, e + rb, 0, e);
      EmbedsTrans(d, at, e + rb, |e|, rb);
      RecordsEmbedded(d, at, init);
      RecordEmbedded(d, at + |e|, last);
      RecordsSnoc(d, at, init, last);
      InitAndLast(s);
    }
  }

  /** Reading back a written table, wherever it lies in a file, gives the
      records it was written from. */
  lemma RecordsRoundTrip(pre: seq<u8>, s: seq<Record>, post: seq<u8>)
    requires AllFit(s)
    ensures |pre| + RecordSize * |s| <= |pre + EncodeRecords(s) + post|
    ensures RecordsAt(pre + EncodeRecords(s) + post, |pre|, |s|) == s
  {
    var t := EncodeRecords(s);
    EmbedsConcat(pre, t);
    EmbedsConcat(pre + t, post);
    EmbedsTrans(pre + t + post, 0, pre + t, |pre|, t);
    RecordsEmbedded(pre + t + post, |pre|, s);
  }

  /** One more record read after a table of init gives init + [last]. */
  lemma RecordsSnoc(data: seq<u8>, at: nat, init: seq<Record>, last: Record)
    requires at + RecordSize * (|init| + 1) <= |data|
    requires RecordsAt(data, at, |init|) == init
    requires RecordAt(data, at + RecordSize * |init|) == last
    ensures RecordsAt(data, at, |init| + 1) == init + [last]
  {
  }

  // ---- Ordering by hash ----

  /** Hashes never decrease along s. */
  predicate Sorted(s: seq<Record>) {
    forall i, j :: 0 <= i < j < |s| ==> s[i].hash <= s[j].hash
  }

  /** Inserts x after every leading record whose hash is not above x's. */
  function InsertByHash(x: Record, s: seq<Record>): (r: seq<Record>)
    ensures |r| == |s| + 1
  {
    if s == [] then [x]
    else if x.hash < s[0].hash then [x] + s
    else [s[0]] + InsertByHash(x, s[1..])
  }

  /** records.sort(key=lambda x: x[0]): Python's sort is stable, so it is
      the insertion sort that puts each record after all earlier ones of
      equal hash. */
  function SortByHash(s: seq<Record>): (r: seq<Record>)
    ensures |r| == |s|
  {
    if s == [] then []
    else InsertByHash(s[|s| - 1], SortByHash(s[..|s| - 1]))
  }

  /** insert_record. */
  function InsertRecord(records: seq<Record>, r: Record): (s: seq<Record>)
    ensures |s| == |records| + 1
  {
    SortByHash(records + [r])
  }

  /** The records of s whose hash is h, in their order in s. */
  function WithHash(s: seq<Record>, h: u32): seq<Record> {
    if s == [] then []
    else (if s[0].hash == h then [s[0]] else []) + WithHash(s[1..], h)
  }

  /** Inserting keeps every hash at or above a bound all others meet. */
  lemma {:induction false} InsertAbove(x: Record, s: seq<Record>, lo: int)
    requires x.hash >= lo && forall i :: 0 <= i < |s| ==> s[i].hash >= lo
    ensures forall i :: 0 <= i < |s| + 1 ==> InsertByHash(x, s)[i].hash >= lo
    decreases |s|
  {
    if s != [] && x.hash >= s[0].hash {
      InsertAbove(x, s[1..], lo);
    }
  }

  /** A record not above any hash of a sorted sequence can go in front. */
  lemma {:induction false} ConsSorted(x: Record, r: seq<Record>)
    requires Sorted(r) && forall k :: 0 <= k < |r| ==> r[k].hash >= x.hash
    ensures Sorted([x] + r)
  {
    var u := [x] + r;
    forall i, j | 0 <= i < j < |u| ensures u[i].hash <= u[j].hash {
      assert u[j] == r[j - 1];
      if i > 0 {
        assert u[i] == r[i - 1];
      }
    }
  }

  lemma {:induction false} InsertKeepsSorted(x: Record, s: seq<Record>)
    requires Sorted(s)
    ensures Sorted(InsertByHash(x, s))
    decreases |s|
  {
    if s == [] {
    } else if x.hash < s[0].hash {
      ConsSorted(x, s);
    } else {
      var t := s[1..];
      InsertKeepsSorted(x, t);
      InsertAbove(x, t, s[0].hash);
      ConsSorted(s[0], InsertByHash(x, t));
    }
  }

  lemma {:induction false} InsertPermutes(x: Record, s: seq<Record>)
    ensures multiset(InsertByHash(x, s)) == multiset(s) + multiset{x}
    decreases |s|
  {
    if s != [] && x.hash >= s[0].hash {
      InsertPermutes(x, s[1..]);
      assert s == [s[0]] + s[1..];
    }
  }

  /** Sorting orders by hash and keeps every record, duplicates included. */
  lemma {:induction false} SortSortsAndPermutes(s: seq<Record>)
    ensures Sorted(SortByHash(s))
    ensures multiset(SortByHash(s)) == multiset(s)
    decreases |s|
  {
    if s != [] {
      var init := s[..|s| - 1];
      SortSortsAndPermutes(init);
      InsertKeepsSorted(s[|s| - 1], SortByHash(init));
      InsertPermutes(s[|s| - 1], SortByHash(init));
      InitAndLast(s);
    }
  }

  lemma {:induction false} WithHashAppend(a: seq<Record>, b: seq<Record>, h: u32)
    ensures WithHash(a + b, h) == WithHash(a, h) + WithHash(b, h)
    decreases |a|
  {
    if a == [] {
      assert a + b == b;
    } else {
      var e: seq<Record> := if a[0].hash == h then [a[0]] else [];
      WithHashAppend(a[1..], b, h);
      assert (a + b)[0] == a[0] && (a + b)[1..] == a[1..] + b;
      assert WithHash(a + b, h) == e + WithHash(a[1..] + b, h);
      assert WithHash(a, h) == e + WithHash(a[1..], h);
      Assoc(e, WithHash(a[1..], h), WithHash(b, h));
    }
  }

  /** A sorted sequence that starts above h holds nothing of hash h. */
  lemma {:induction false} WithHashAbove(s: seq<Record>, h: u32)
    requires forall i :: 0 <= i < |s| ==> s[i].hash > h
    ensures WithHash(s, h) == []
    decreases |s|
  {
    if s != [] {
      WithHashAbove(s[1..], h);
    }
  }

  lemma {:induction false} InsertStable(x: Record, s: seq<Record>, h: u32)
    requires Sorted(s)
    ensures WithHash(InsertByHash(x, s), h) == WithHash(s, h) + (if x.hash == h then [x] else [])
    decreases |s|
  {
    if s == [] {
    } else if x.hash < s[0].hash {
      if x.hash == h {
        WithHashAbove(s, h);
      }
      WithHashAppend([x], s, h);
    } else {
      var t := s[1..];
      InsertStable(x, t, h);
      var e: seq<Record> := if s[0].hash == h then [s[0]] else [];
      assert WithHash(InsertByHash(x, s), h) == e + WithHash(InsertByHash(x, t), h);
    }
  }

  /** Sorting is stable: the records of any one hash keep their order. */
  lemma {:induction false} SortStable(s: seq<Record>, h: u32)
    ensures WithHash(SortByHash(s), h) == WithHash(s, h)
    decreases |s|
  {
    if s != [] {
      var init, last := s[..|s| - 1], s[|s| - 1];
      SortStable(init, h);
      SortSortsAndPermutes(init);
      InsertStable(last, SortByHash(init), h);
      assert SortByHash(s) == InsertByHash(last, SortByHash(init));
      InitAndLast(s);
      WithHashSnoc(init, last, h);
    }
  }

  /** Appending one record adds it to its own hash's records only. */
  lemma WithHashSnoc(s: seq<Record>, x: Record, h: u32)
    ensures WithHash(s + [x], h) == WithHash(s, h) + (if x.hash == h then [x] else [])
  {
    WithHashAppend(s, [x], h);
    assert WithHash([x], h) == (if x.hash == h then [x] else []) + WithHash([], h);
  }

  /** A record whose hash is not below any other goes last. */
  lemma {:induction false} InsertAtEnd(x: Record, s: seq<Record>)
    requires forall i :: 0 <= i < |s| ==> s[i].hash <= x.hash
    ensures InsertByHash(x, s) == s + [x]
    decreases |s|
  {
    if s != [] {
      InsertAtEnd(x, s[1..]);
      assert s == [s[0]] + s[1..];
    }
  }

  /** Sorting an already sorted table changes nothing. */
  lemma {:induction false} SortOfSorted(s: seq<Record>)
    requires Sorted(s)
    ensures SortByHash(s) == s
    decreases |s|
  {
    if s != [] {
      var init := s[..|s| - 1];
      SortOfSorted(init);
      InsertAtEnd(s[|s| - 1], init);
    }
  }

  /** Adding a record to a sorted table inserts it after every record whose
      hash is not above its own and before the rest. */
  lemma {:induction false} InsertIntoSorted(records: seq<Record>, r: Record)
    requires Sorted(records)
    ensures InsertRecord(records, r) == InsertByHash(r, records)
  {
    SortOfSorted(records);
    assert (records + [r])[..|records|] == records;
  }

  /** Where InsertByHash puts x in a sorted table: after the k records whose
      hash is not above x's. */
  lemma {:induction false} InsertPosition(x: Record, s: seq<Record>) returns (k: nat)
    requires Sorted(s)
    ensures k <= |s| && InsertByHash(x, s) == s[..k] + [x] + s[k..]
    ensures forall i :: 0 <= i < k ==> s[i].hash <= x.hash
    ensures forall i :: k <= i < |s| ==> s[i].hash > x.hash
    decreases |s|
  {
    if s == [] {
      k := 0;
    } else if x.hash < s[0].hash {
      k := 0;
    } else {
      var t := s[1..];
      var k' := InsertPosition(x, t);
      k := k' + 1;
      assert s[..k] == [s[0]] + t[..k'];
      assert s[k..] == t[k'..];
    }
  }

  /** Two sequences with the same elements hold only fitting records
      together. */
  lemma {:induction false} FitsPermuted(s: seq<Record>, t: seq<Record>)
    requires multiset(s) == multiset(t) && AllFit(s)
    ensures AllFit(t)
  {
    forall i | 0 <= i < |t| ensures Fits(t[i]) {
      assert t[i] in multiset(s);
      var j :| 0 <= j < |s| && s[j] == t[i];
    }
  }

  /** The sorted table fits 32-bit fields exactly when every record, the
      added one included, does. */
  lemma {:induction false} InsertRecordFits(records: seq<Record>, r: Record)
    requires AllFit(records)
    ensures AllFit(InsertRecord(records, r)) <==> Fits(r)
  {
    var s := records + [r];
    SortSortsAndPermutes(s);
    if Fits(r) {
      assert AllFit(s) by {
        forall i | 0 <= i < |s| ensures Fits(s[i]) {
          if i < |records| {
            assert s[i] == records[i];
          }
        }
      }
      FitsPermuted(s, InsertRecord(records, r));
    } else if AllFit(InsertRecord(records, r)) {
      FitsPermuted(InsertRecord(records, r), s);
      assert false;
    }
  }

  /** What insert_record promises: the table comes back ordered by hash, it
      holds the old records and the new one, and among records of one hash
      the new one follows every old one, which keep their order. */
  lemma {:induction false} InsertRecordSpec(records: seq<Record>, r: Record, h: u32)
    ensures Sorted(InsertRecord(records, r))
    ensures multiset(InsertRecord(records, r)) == multiset(records) + multiset{r}
    ensures WithHash(InsertRecord(records, r), h) == WithHash(records, h) + (if r.hash == h then [r] else [])
  {
    var s := records + [r];
    SortSortsAndPermutes(s);
    SortStable(s, h);
    WithHashSnoc(records, r, h);
  }
}
