/**
 * The pack index in its original layout: 256 big-endian cumulative counts
 * (the fan-out table), then one 24-byte record per object (a big-endian
 * 32-bit pack offset followed by the 20-byte object id), then two 20-byte
 * checksums. Reading it splits the records into one bucket per value of an
 * id's first byte; a lookup binary-searches the bucket of the id's first
 * byte.
 */
module PackIndex {
  import opened JavaInts
  import opened Bytes
  import opened Errors
  import opened ByteSources

  /** The fan-out table: 256 words of 4 bytes. */
  const IDX_HDR_LEN: nat := 1024
  /** One record: a 4-byte offset and a 20-byte id. */
  const RECORD_LEN: nat := 24
  const TRAILER_LEN: nat := 2 * ID_LENGTH

  /** The one index length the reader accepts for a pack of `objectCnt` objects. */
  function IndexLength(objectCnt: nat): (r: nat) {
    IDX_HDR_LEN + RECORD_LEN * objectCnt + TRAILER_LEN
  }

  /** Fan-out entry k: the number of records whose id's first byte is at most k. */
  function Count(idx: seq<byte>, k: nat): (r: nat)
    requires |idx| >= IDX_HDR_LEN && k < 256
  {
    Be32(idx, 4 * k)
  }

  /** The fan-out entry before k, taken as 0 for k = 0. */
  function Prev(idx: seq<byte>, k: nat): (r: nat)
    requires |idx| >= IDX_HDR_LEN && k < 256
  {
    if k == 0 then 0 else Count(idx, k - 1)
  }

  /**
   * What reading bucket k yields: null (None) when its record count is not
   * positive, otherwise the buffer filled from the index, or the failure
   * raised on the way. Every quantity is computed with the `(int)` casts
   * and `int` arithmetic of `readIndexHeader`.
   */
  function BucketAt(idx: seq<byte>, k: nat): (r: Result<Option<seq<byte>>>)
    requires |idx| >= IDX_HDR_LEN && k < 256
  {
    var n := Int32(Count(idx, k) - Prev(idx, k));
    if n <= 0 then Ok(None)
    else
      var len := Int32(n * RECORD_LEN);
      if len < 0 then Err(NegativeArraySize)
      else
        var off := Int32(Prev(idx, k) * RECORD_LEN);
        match ReadPadded(idx, Int32(off + IDX_HDR_LEN), len)
        case Err(e) => Err(e)
        case Ok(b) => Ok(Some(b))
  }

  /** The position of the first failure in `rs`, or |rs| when there is none. */
  function FirstFailure<T>(rs: seq<Result<T>>): (r: nat)
    ensures r <= |rs|
    ensures forall j :: 0 <= j < r ==> rs[j].Ok?
    ensures r < |rs| ==> rs[r].Err?
  {
    if rs == [] then 0
    else if rs[0].Err? then 0
    else 1 + FirstFailure(rs[1..])
  }

  /**
   * What reading the index yields for a pack whose preamble declared
   * `objectCnt` objects: a length check, then the 256 buckets in order,
   * stopping at the first bucket that fails.
   */
  function ParseIndex(idx: seq<byte>, objectCnt: nat): (r: Result<seq<Option<seq<byte>>>>)
  {
    if |idx| != IndexLength(objectCnt) then Err(CorruptIndex)
    else
      var rs := seq(256, k requires 0 <= k < 256 => BucketAt(idx, k));
      var f := FirstFailure(rs);
      if f < 256 then Err(rs[f].error)
      else Ok(seq(256, k requires 0 <= k < 256 => rs[k].value))
  }

  /** The index is refused as corrupt exactly when its length is not the one the object count implies. */
  lemma ParseIndexLengthChecked(idx: seq<byte>, objectCnt: nat)
    ensures ParseIndex(idx, objectCnt) == Err(CorruptIndex) <==> |idx| != IndexLength(objectCnt)
  {
  }

  /** Reading an index of the right length stops at the first failing bucket and otherwise yields every bucket. */
  lemma ParseIndexBuckets(idx: seq<byte>, objectCnt: nat)
    requires |idx| == IndexLength(objectCnt)
    ensures ParseIndex(idx, objectCnt).Ok? <==> forall k :: 0 <= k < 256 ==> BucketAt(idx, k).Ok?
    ensures ParseIndex(idx, objectCnt).Ok? ==>
              |ParseIndex(idx, objectCnt).value| == 256 &&
              forall k :: 0 <= k < 256 ==> ParseIndex(idx, objectCnt).value[k] == BucketAt(idx, k).value
    ensures forall k :: 0 <= k < 256 && BucketAt(idx, k).Err? && (forall j :: 0 <= j < k ==> BucketAt(idx, j).Ok?) ==>
              ParseIndex(idx, objectCnt) == Err(BucketAt(idx, k).error)
  {
    var rs := seq(256, k requires 0 <= k < 256 => BucketAt(idx, k));
    assert forall k :: 0 <= k < 256 ==> rs[k] == BucketAt(idx, k);
    var f := FirstFailure(rs);
    assert ParseIndex(idx, objectCnt) == if f < 256 then Err(rs[f].error) else Ok(seq(256, k requires 0 <= k < 256 => rs[k].value));
  }

  /** The bytes of index records lo..hi-1. */
  function RecordsBetween(idx: seq<byte>, lo: nat, hi: nat): (r: seq<byte>)
    requires lo <= hi && IDX_HDR_LEN + RECORD_LEN * hi <= |idx|
    ensures |r| == RECORD_LEN * (hi - lo)
  {
    idx[IDX_HDR_LEN + RECORD_LEN * lo .. IDX_HDR_LEN + RECORD_LEN * hi]
  }

  /** A fan-out table that is non-decreasing and whose records lie inside the file, within Java `int` range. */
  ghost predicate FanoutSane(idx: seq<byte>)
    requires |idx| >= IDX_HDR_LEN
  {
    (forall k {:trigger Prev(idx, k)} :: 0 < k < 256 ==> Prev(idx, k) <= Count(idx, k)) &&
    IDX_HDR_LEN + RECORD_LEN * Count(idx, 255) + TRAILER_LEN <= |idx| &&
    IDX_HDR_LEN + RECORD_LEN * Count(idx, 255) < TWO_31
  }

  /** In a sane fan-out table every count is at most the last. */
  lemma {:induction false} FanoutBounded(idx: seq<byte>, k: nat)
    requires |idx| >= IDX_HDR_LEN && k < 256 && FanoutSane(idx)
    ensures Prev(idx, k) <= Count(idx, k) <= Count(idx, 255)
    decreases 256 - k
  {
    if k < 255 {
      FanoutBounded(idx, k + 1);
    }
  }

  /**
   * With a sane fan-out table, bucket k holds Count(k) - Count(k-1) records:
   * it is null when that is zero, and otherwise exactly the index bytes of
   * those records.
   */
  lemma BucketLayout(idx: seq<byte>, k: nat)
    requires |idx| >= IDX_HDR_LEN && k < 256 && FanoutSane(idx)
    ensures var p, c := Prev(idx, k), Count(idx, k);
            p <= c <= Count(idx, 255) &&
            BucketAt(idx, k) == Ok(if p < c then Some(RecordsBetween(idx, p, c)) else None)
  {
    FanoutBounded(idx, k);
    BucketRecords(idx, k);
  }

  /**
   * Bucket k on its own, whatever the other fan-out entries hold: when its
   * entry is at least the one before it and its records lie inside the file,
   * within Java `int` range, it is null for an empty range and otherwise
   * exactly the index bytes of records Count(k-1) .. Count(k)-1.
   */
  lemma BucketRecords(idx: seq<byte>, k: nat)
    requires |idx| >= IDX_HDR_LEN && k < 256
    requires Prev(idx, k) <= Count(idx, k)
    requires IDX_HDR_LEN + RECORD_LEN * Count(idx, k) <= |idx| && IDX_HDR_LEN + RECORD_LEN * Count(idx, k) < TWO_31
    ensures var p, c := Prev(idx, k), Count(idx, k);
            BucketAt(idx, k) == Ok(if p < c then Some(RecordsBetween(idx, p, c)) else None)
  {
    var p, c := Prev(idx, k), Count(idx, k);
    if p < c {
      var at, len := IDX_HDR_LEN + RECORD_LEN * p, RECORD_LEN * (c - p);
      assert at + len <= |idx|;
      assert Int32(c - p) == c - p;
      assert Int32((c - p) * RECORD_LEN) == len;
      assert Int32(p * RECORD_LEN) == RECORD_LEN * p;
      assert Int32(RECORD_LEN * p + IDX_HDR_LEN) == at;
      ReadPaddedInside(idx, at, len);
    }
  }

  /** A bucket whose fan-out difference is negative (and not wrapped) stays null. */
  lemma BucketNegativeSkipped(idx: seq<byte>, k: nat)
    requires |idx| >= IDX_HDR_LEN && k < 256
    requires Count(idx, k) <= Prev(idx, k) <= Count(idx, k) + TWO_31
    ensures BucketAt(idx, k) == Ok(None)
  {
  }

  // ---- records inside one bucket ----

  function RecordCount(b: seq<byte>): (r: nat) {
    |b| / RECORD_LEN
  }

  lemma RecordInside(b: seq<byte>, i: nat)
    requires i < RecordCount(b)
    ensures RECORD_LEN * i + RECORD_LEN <= |b|
  {
  }

  /** A probe of record i stays inside the bucket exactly when i is below the record count. */
  lemma ProbeInside(b: seq<byte>, i: nat)
    ensures RECORD_LEN * i >= 0
    ensures RECORD_LEN * i + RECORD_LEN <= |b| <==> i < RecordCount(b)
  {
  }

  /** The id of record i of a bucket (record offset +4). */
  function RecordId(b: seq<byte>, i: nat): (r: ObjectId)
    requires i < RecordCount(b)
  {
    b[RECORD_LEN * i + 4 .. RECORD_LEN * i + RECORD_LEN]
  }

  /** The pack offset stored in the leading 4 bytes of record i. */
  function RecordOffset(b: seq<byte>, i: nat): (r: nat)
    requires i < RecordCount(b)
  {
    Be32(b, RECORD_LEN * i)
  }

  /** The bucket's record ids strictly increase. */
  ghost predicate SortedRecords(b: seq<byte>) {
    forall i, j {:trigger Compare(RecordId(b, i), RecordId(b, j))} ::
      0 <= i < j < RecordCount(b) ==> Compare(RecordId(b, i), RecordId(b, j)) < 0
  }

  /**
   * The binary search of findOffset over records [low, high) of a bucket,
   * one probe per call: -1 when the id is not found, the record's offset when
   * it is, and an out-of-bounds failure when a probe's 20 id bytes are not
   * inside the bucket.
   */
  function Search(b: seq<byte>, id: ObjectId, low: nat, high: nat): (r: Result<int>)
    requires low <= high <= RecordCount(b)
    decreases high - low
  {
    var mid := (low + high) / 2;
    if mid >= RecordCount(b) then Err(IndexOutOfBounds)
    else
      var cmp := Compare(id, RecordId(b, mid));
      if cmp < 0 then (if low < mid then Search(b, id, low, mid) else Ok(-1))
      else if cmp == 0 then Ok(RecordOffset(b, mid))
      else if mid + 1 < high then Search(b, id, mid + 1, high) else Ok(-1)
  }

  /** The lookup in one bucket: a null bucket holds nothing. */
  function BucketLookup(bucket: Option<seq<byte>>, id: ObjectId): (r: Result<int>) {
    match bucket
    case None => Ok(-1)
    case Some(b) => Search(b, id, 0, RecordCount(b))
  }

  /** Every probe of a non-empty range is inside the bucket, so the search never faults. */
  lemma {:induction false} SearchInBounds(b: seq<byte>, id: ObjectId, low: nat, high: nat)
    requires low < high <= RecordCount(b)
    ensures Search(b, id, low, high).Ok?
    decreases high - low
  {
    var mid := (low + high) / 2;
    RecordInside(b, mid);
    var cmp := Compare(id, RecordId(b, mid));
    if cmp < 0 && low < mid {
      SearchInBounds(b, id, low, mid);
    } else if cmp > 0 && mid + 1 < high {
      SearchInBounds(b, id, mid + 1, high);
    }
  }

  /** Whatever the order of the records, an offset the search returns belongs to a record with the id sought. */
  lemma {:induction false} SearchSound(b: seq<byte>, id: ObjectId, low: nat, high: nat)
    requires low <= high <= RecordCount(b) && (low < high || high == RecordCount(b))
    requires Search(b, id, low, high).Ok? && Search(b, id, low, high).value != -1
    ensures exists i :: low <= i < high && RecordId(b, i) == id &&
                        Search(b, id, low, high).value == RecordOffset(b, i)
    decreases high - low
  {
    var mid := (low + high) / 2;
    var cmp := Compare(id, RecordId(b, mid));
    if cmp < 0 {
      SearchSound(b, id, low, mid);
    } else if cmp == 0 {
      CompareZero(id, RecordId(b, mid));
    } else {
      SearchSound(b, id, mid + 1, high);
    }
  }

  /** In a sorted bucket the search finds every record it looks for. */
  lemma {:induction false} SearchFinds(b: seq<byte>, id: ObjectId, low: nat, high: nat, i: nat)
    requires low <= i < high <= RecordCount(b) && SortedRecords(b)
    requires RecordId(b, i) == id
    ensures Search(b, id, low, high) == Ok(RecordOffset(b, i))
    decreases high - low
  {
    var mid := (low + high) / 2;
    RecordInside(b, mid);
    if i < mid {
      assert Compare(id, RecordId(b, mid)) < 0 by {
        assert Compare(RecordId(b, i), RecordId(b, mid)) < 0;
      }
      SearchFinds(b, id, low, mid, i);
    } else if i > mid {
      assert Compare(id, RecordId(b, mid)) > 0 by {
        assert Compare(RecordId(b, mid), RecordId(b, i)) < 0;
        CompareAntisymmetric(id, RecordId(b, mid));
      }
      SearchFinds(b, id, mid + 1, high, i);
    } else {
      CompareZero(id, RecordId(b, i));
    }
  }

  /**
   * findOffset's contract for one bucket: a null bucket gives -1; a
   * non-empty sorted bucket gives the offset of the record with the id, or
   * -1 when no record has it.
   */
  lemma BucketLookupCorrect(bucket: Option<seq<byte>>, id: ObjectId)
    requires bucket.Some? ==> RecordCount(bucket.value) > 0 && SortedRecords(bucket.value)
    ensures bucket.None? ==> BucketLookup(bucket, id) == Ok(-1)
    ensures bucket.Some? ==> var b := bucket.value;
              (forall i :: 0 <= i < RecordCount(b) && RecordId(b, i) == id ==>
                 BucketLookup(bucket, id) == Ok(RecordOffset(b, i))) &&
              ((forall i :: 0 <= i < RecordCount(b) ==> RecordId(b, i) != id) ==>
                 BucketLookup(bucket, id) == Ok(-1))
  {
    if bucket.Some? {
      var b := bucket.value;
      SearchInBounds(b, id, 0, RecordCount(b));
      forall i | 0 <= i < RecordCount(b) && RecordId(b, i) == id
        ensures BucketLookup(bucket, id) == Ok(RecordOffset(b, i))
      {
        SearchFinds(b, id, 0, RecordCount(b), i);
      }
      if BucketLookup(bucket, id).value != -1 {
        SearchSound(b, id, 0, RecordCount(b));
      }
    }
  }

  // ---- the index as a whole ----

  /** The id of the i-th record of the index. */
  function EntryId(idx: seq<byte>, i: nat): (r: ObjectId)
    requires IDX_HDR_LEN + RECORD_LEN * i + RECORD_LEN <= |idx|
  {
    idx[IDX_HDR_LEN + RECORD_LEN * i + 4 .. IDX_HDR_LEN + RECORD_LEN * i + RECORD_LEN]
  }

  /** The pack offset stored in the i-th record of the index. */
  function EntryOffset(idx: seq<byte>, i: nat): (r: nat)
    requires IDX_HDR_LEN + RECORD_LEN * i + RECORD_LEN <= |idx|
  {
    Be32(idx, IDX_HDR_LEN + RECORD_LEN * i)
  }

  /** The first m records of the index are strictly sorted by id. */
  ghost predicate EntriesSorted(idx: seq<byte>, m: nat)
    requires IDX_HDR_LEN + RECORD_LEN * m <= |idx|
  {
    forall i, j {:trigger Compare(EntryId(idx, i), EntryId(idx, j))} ::
      0 <= i < j < m ==> Compare(EntryId(idx, i), EntryId(idx, j)) < 0
  }

  /**
   * An index as a pack writer produces it: of the length the object count
   * implies, with a sane fan-out table, its records strictly sorted by id,
   * and every record inside the bucket of its id's first byte.
   */
  ghost predicate WellFormedIndex(idx: seq<byte>, objectCnt: nat) {
    |idx| == IndexLength(objectCnt) && FanoutSane(idx) &&
    EntriesSorted(idx, Count(idx, 255)) &&
    (forall i :: 0 <= i < Count(idx, 255) ==>
       Prev(idx, EntryId(idx, i)[0]) <= i < Count(idx, EntryId(idx, i)[0]))
  }

  lemma RecordCountOf(n: nat)
    ensures (RECORD_LEN * n) / RECORD_LEN == n
  {
  }

  /** Record j of the bytes of index records lo..hi-1 is record lo + j of the index. */
  lemma SliceRecord(idx: seq<byte>, lo: nat, hi: nat, j: nat)
    requires lo <= hi && IDX_HDR_LEN + RECORD_LEN * hi <= |idx| && j < hi - lo
    ensures var b := RecordsBetween(idx, lo, hi);
            RecordCount(b) == hi - lo &&
            RecordId(b, j) == EntryId(idx, lo + j) &&
            RecordOffset(b, j) == EntryOffset(idx, lo + j)
  {
    var start := IDX_HDR_LEN + RECORD_LEN * lo;
    var b := RecordsBetween(idx, lo, hi);
    RecordCountOf(hi - lo);
    var r := RECORD_LEN * j;
    SliceOfSlice(idx, start, IDX_HDR_LEN + RECORD_LEN * hi, r + 4, r + RECORD_LEN);
    assert b[r] == idx[start + r] && b[r + 1] == idx[start + r + 1];
    assert b[r + 2] == idx[start + r + 2] && b[r + 3] == idx[start + r + 3];
  }

  lemma SliceOfSlice(s: seq<byte>, a: nat, b: nat, c: nat, d: nat)
    requires a <= b <= |s| && c <= d <= b - a
    ensures s[a..b][c..d] == s[a + c .. a + d]
  {
    assert forall t :: 0 <= t < d - c ==> s[a..b][c..d][t] == s[a + c .. a + d][t];
  }

  /** With a sane fan-out table every bucket reads without failure. */
  lemma SaneBucketsRead(idx: seq<byte>)
    requires |idx| >= IDX_HDR_LEN && FanoutSane(idx)
    ensures forall k :: 0 <= k < 256 ==> BucketAt(idx, k).Ok?
  {
    forall k | 0 <= k < 256 ensures BucketAt(idx, k).Ok? {
      BucketLayout(idx, k);
    }
  }

  /** Records lo..hi-1 of an index whose first m records are sorted are themselves sorted. */
  lemma SliceSorted(idx: seq<byte>, m: nat, lo: nat, hi: nat)
    requires lo <= hi <= m && IDX_HDR_LEN + RECORD_LEN * m <= |idx| && EntriesSorted(idx, m)
    ensures SortedRecords(RecordsBetween(idx, lo, hi))
  {
    var b := RecordsBetween(idx, lo, hi);
    forall j1, j2 | 0 <= j1 < j2 < RecordCount(b)
      ensures Compare(RecordId(b, j1), RecordId(b, j2)) < 0
    {
      SliceRecord(idx, lo, hi, j1);
      SliceRecord(idx, lo, hi, j2);
    }
  }

  /**
   * Reading a well-formed index succeeds, and bucket k is null when its
   * fan-out range is empty and otherwise the sorted records of that range.
   */
  lemma WellFormedBucket(idx: seq<byte>, objectCnt: nat, k: nat)
    requires WellFormedIndex(idx, objectCnt) && k < 256
    ensures ParseIndex(idx, objectCnt).Ok? && |ParseIndex(idx, objectCnt).value| == 256
    ensures var p, c := Prev(idx, k), Count(idx, k);
            p <= c <= Count(idx, 255) &&
            ParseIndex(idx, objectCnt).value[k] == (if p < c then Some(RecordsBetween(idx, p, c)) else None) &&
            (p < c ==> RecordCount(RecordsBetween(idx, p, c)) == c - p && SortedRecords(RecordsBetween(idx, p, c)))
  {
    SaneBucketsRead(idx);
    ParseIndexBuckets(idx, objectCnt);
    BucketLayout(idx, k);
    var p, c := Prev(idx, k), Count(idx, k);
    if p < c {
      RecordCountOf(c - p);
      SliceSorted(idx, Count(idx, 255), p, c);
    }
  }

  /**
   * Looking up an id that some record of a well-formed index holds, in the
   * bucket of the id's first byte, gives that record's pack offset.
   */
  lemma {:induction false} IndexLookupFound(idx: seq<byte>, objectCnt: nat, id: ObjectId, i: nat)
    requires WellFormedIndex(idx, objectCnt) && i < Count(idx, 255) && EntryId(idx, i) == id
    ensures ParseIndex(idx, objectCnt).Ok? && |ParseIndex(idx, objectCnt).value| == 256
    ensures BucketLookup(ParseIndex(idx, objectCnt).value[id[0]], id) == Ok(EntryOffset(idx, i))
  {
    var k := id[0];
    WellFormedBucket(idx, objectCnt, k);
    var p, c := Prev(idx, k), Count(idx, k);
    assert p <= i < c;
    SliceRecord(idx, p, c, i - p);
    BucketLookupCorrect(Some(RecordsBetween(idx, p, c)), id);
  }

  /** Looking up an id that no record of a well-formed index holds gives -1. */
  lemma {:induction false} IndexLookupMissing(idx: seq<byte>, objectCnt: nat, id: ObjectId)
    requires WellFormedIndex(idx, objectCnt)
    requires forall i :: 0 <= i < Count(idx, 255) ==> EntryId(idx, i) != id
    ensures ParseIndex(idx, objectCnt).Ok? && |ParseIndex(idx, objectCnt).value| == 256
    ensures BucketLookup(ParseIndex(idx, objectCnt).value[id[0]], id) == Ok(-1)
  {
    var k := id[0];
    WellFormedBucket(idx, objectCnt, k);
    var p, c := Prev(idx, k), Count(idx, k);
    if p < c {
      var b := RecordsBetween(idx, p, c);
      forall j | 0 <= j < RecordCount(b) ensures RecordId(b, j) != id {
        SliceRecord(idx, p, c, j);
      }
      BucketLookupCorrect(Some(b), id);
    }
  }
}
