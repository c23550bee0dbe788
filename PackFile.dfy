/**
 * A pack file together with the index read next to it: opening reads and
 * checks the pack's preamble, loads the index's fan-out buckets into memory
 * and releases the index; lookups search a bucket, and the reader decodes an
 * object's headers from the pack.
 */
module Packs {
  import opened JavaInts
  import opened Bytes
  import opened Errors
  import opened ByteSources
  import opened PackHeader
  import opened PackIndex
  import opened ObjectHeader
  import opened ObjectReader

  /**
   * What opening a pack with its index yields: the object count and the 256
   * buckets, or the first failure, whatever closing a handle reports.
   */
  function OpenOutcome(pack: seq<byte>, idx: seq<byte>): (r: Result<(nat, seq<Option<seq<byte>>>)>) {
    match ParsePackHeader(pack)
    case Err(e) => Err(e)
    case Ok(cnt) =>
      match ParseIndex(idx, cnt)
      case Err(e) => Err(e)
      case Ok(buckets) => Ok((cnt, buckets))
  }

  /**
   * What `get(id)` yields given the buckets and the pack's bytes: no loader
   * when the index does not hold the id, otherwise the reader's loader for
   * the recorded offset with the id attached.
   */
  function Retrieve(buckets: seq<Option<seq<byte>>>, pack: seq<byte>, id: ObjectId): (r: Result<Option<Loader>>)
    requires |buckets| == 256
  {
    match BucketLookup(buckets[id[0]], id)
    case Err(e) => Err(e)
    case Ok(offset) =>
      if offset == -1 then Ok(None)
      else match ObjectAt(pack, offset)
        case Err(e) => Err(e)
        case Ok(l) => Ok(Some(l.(id := Some(id))))
  }

  /** `get` of an id that no record of a well-formed index holds finds no loader, whatever the pack holds. */
  lemma RetrieveMissing(idx: seq<byte>, objectCnt: nat, pack: seq<byte>, id: ObjectId)
    requires WellFormedIndex(idx, objectCnt)
    requires forall i :: 0 <= i < Count(idx, 255) ==> EntryId(idx, i) != id
    ensures ParseIndex(idx, objectCnt).Ok? && |ParseIndex(idx, objectCnt).value| == 256
    ensures Retrieve(ParseIndex(idx, objectCnt).value, pack, id) == Ok(None)
  {
    IndexLookupMissing(idx, objectCnt, id);
  }

  /**
   * `get` of an id that record i of a well-formed index holds is the reader's
   * outcome at the offset that record stores, with the id attached to the loader.
   */
  lemma RetrieveFound(idx: seq<byte>, objectCnt: nat, pack: seq<byte>, id: ObjectId, i: nat)
    requires WellFormedIndex(idx, objectCnt) && i < Count(idx, 255) && EntryId(idx, i) == id
    ensures ParseIndex(idx, objectCnt).Ok? && |ParseIndex(idx, objectCnt).value| == 256
    ensures var got := Retrieve(ParseIndex(idx, objectCnt).value, pack, id);
            var at := ObjectAt(pack, EntryOffset(idx, i));
            (at.Err? ==> got == Err(at.error)) && (at.Ok? ==> got == Ok(Some(at.value.(id := Some(id)))))
  {
    IndexLookupFound(idx, objectCnt, id, i);
  }

  class PackFile {
    const pack: ByteSource
    /** The object count the pack's preamble declares. */
    var objectCnt: nat
    /** Bucket k holds the index records whose id starts with byte k; None for an empty bucket. */
    var idxdata: array<Option<seq<byte>>>

    /** The index has been loaded. */
    ghost predicate Valid()
      reads this
    {
      idxdata.Length == 256
    }

    function Buckets(): (r: seq<Option<seq<byte>>>)
      reads this, idxdata
    {
      idxdata[..]
    }

    constructor (pack: ByteSource)
      ensures this.pack == pack && objectCnt == 0 && idxdata.Length == 0
    {
      this.pack := pack;
      objectCnt := 0;
      idxdata := new Option<seq<byte>>[0];
    }

    /**
     * Opens `pack`, reads its preamble, then opens `idx`, loads its buckets
     * and closes it again whatever happened. An I/O failure closes the pack
     * and is reported; failures in closing are ignored. A failure that is not
     * an I/O exception (a negative bucket size) passes through with the pack
     * still open.
     */
    static method Open(pack: ByteSource, idx: ByteSource) returns (r: Result<PackFile>)
      requires pack != idx && !pack.isOpen && !idx.isOpen
      modifies pack, idx
      ensures OpenOutcome(pack.data, idx.data).Ok? <==> r.Ok?
      ensures r.Ok? ==> fresh(r.value) && fresh(r.value.idxdata) && r.value.pack == pack && r.value.Valid()
                        && (r.value.objectCnt, r.value.Buckets()) == OpenOutcome(pack.data, idx.data).value
      ensures r.Err? ==> r.error == OpenOutcome(pack.data, idx.data).error
      ensures pack.isOpen <==> r.Ok? || !r.error.IsIOException()
      ensures !idx.isOpen
    {
      var pf := new PackFile(pack);
      pack.Open();
      var header := pf.ReadPackHeader();
      if header.Err? {
        var _ := pack.Close();
        return Err(header.error);
      }
      idx.Open();
      var loaded := pf.ReadIndexHeader(idx);
      var _ := idx.Close();
      if loaded.Err? {
        if loaded.error.IsIOException() {
          var _ := pack.Close();
        }
        return Err(loaded.error);
      }
      r := Ok(pf);
    }

    /** `readPackHeader()`: the object count on success; the count is left alone on failure. */
    method ReadPackHeader() returns (r: Result<()>)
      modifies this`objectCnt
      ensures ParsePackHeader(pack.data).Ok? ==> r == Ok(()) && objectCnt == ParsePackHeader(pack.data).value
      ensures ParsePackHeader(pack.data).Err? ==> r == Err(ParsePackHeader(pack.data).error) && objectCnt == old(objectCnt)
    {
      var sig := new byte[|SIGNATURE|](_ => 0);
      var got := pack.ReadInto(0, sig);
      if got != Ok(|SIGNATURE|) {
        return Err(NotAPackFile);
      }
      for k := 0 to |SIGNATURE|
        invariant forall j :: 0 <= j < k ==> sig[j] == SIGNATURE[j]
      {
        if sig[k] != SIGNATURE[k] {
          assert pack.data[..|SIGNATURE|][k] != SIGNATURE[k];
          return Err(NotAPackFile);
        }
      }
      assert pack.data[..|SIGNATURE|] == SIGNATURE;
      var position := |SIGNATURE|;
      var vers := ReadUInt32(pack.data, position);
      if vers.Err? {
        return Err(vers.error);
      }
      if vers.value != 2 && vers.value != 3 {
        return Err(UnsupportedVersion(vers.value));
      }
      position := position + 4;
      var cnt := ReadUInt32(pack.data, position);
      if cnt.Err? {
        return Err(cnt.error);
      }
      objectCnt := cnt.value;
      r := Ok(());
    }

    /**
     * `readIndexHeader(idx)`: checks the index length against the object
     * count, reads the 256 fan-out words, then fills one bucket per first
     * byte, stopping at the first failure.
     */
    method ReadIndexHeader(idx: ByteSource) returns (r: Result<()>)
      modifies this`idxdata
      ensures ParseIndex(idx.data, objectCnt).Ok? ==>
                r == Ok(()) && fresh(idxdata) && idxdata[..] == ParseIndex(idx.data, objectCnt).value
      ensures ParseIndex(idx.data, objectCnt).Err? ==> r == Err(ParseIndex(idx.data, objectCnt).error)
    {
      if |idx.data| != IDX_HDR_LEN + RECORD_LEN * objectCnt + TRAILER_LEN {
        return Err(CorruptIndex);
      }
      var idxHeader := new int[256];
      for k := 0 to 256
        invariant forall j :: 0 <= j < k ==> idxHeader[j] == Count(idx.data, j)
      {
        var word := ReadUInt32(idx.data, k * 4);
        idxHeader[k] := word.value;
      }
      idxdata := new Option<seq<byte>>[256](_ => None);
      for k := 0 to 256
        invariant fresh(idxdata) && idxdata.Length == 256
        invariant forall j :: 0 <= j < 256 ==> idxHeader[j] == Count(idx.data, j)
        invariant forall j :: 0 <= j < k ==> BucketAt(idx.data, j).Ok? && idxdata[j] == BucketAt(idx.data, j).value
        invariant forall j :: k <= j < 256 ==> idxdata[j] == None
      {
        var bucket := ReadBucket(idx, k, if k == 0 then 0 else idxHeader[k - 1], idxHeader[k]);
        if bucket.Err? {
          ParseIndexBuckets(idx.data, objectCnt);
          return Err(bucket.error);
        }
        if bucket.value.Some? {
          idxdata[k] := bucket.value;
        }
      }
      ParseIndexBuckets(idx.data, objectCnt);
      assert idxdata[..] == ParseIndex(idx.data, objectCnt).value;
      r := Ok(());
    }

    /**
     * One bucket of `readIndexHeader`, from the fan-out words before it
     * (`prev`, 0 for the first bucket) and at it (`count`): nothing when the
     * record count is not positive, otherwise a fresh buffer of that many
     * records filled from the index.
     */
    static method ReadBucket(idx: ByteSource, k: nat, prev: int, count: int) returns (r: Result<Option<seq<byte>>>)
      requires |idx.data| >= IDX_HDR_LEN && k < 256
      requires prev == Prev(idx.data, k) && count == Count(idx.data, k)
      ensures r == BucketAt(idx.data, k)
    {
      var n := Int32(count - prev);
      if n <= 0 {
        return Ok(None);
      }
      var len := Int32(n * RECORD_LEN);
      if len < 0 {
        return Err(NegativeArraySize);
      }
      var buf := new byte[len](_ => 0);
      var off := Int32(prev * RECORD_LEN);
      var got := idx.ReadInto(Int32(off + IDX_HDR_LEN), buf);
      if got.Err? {
        return Err(got.error);
      }
      assert buf[..] == ReadPadded(idx.data, Int32(off + IDX_HDR_LEN), len).value;
      r := Ok(Some(buf[..]));
    }

    /** `findOffset(id)`: the pack offset the index records for `id`, or -1. */
    method FindOffset(id: ObjectId) returns (r: Result<int>)
      requires Valid()
      ensures r == BucketLookup(idxdata[id[0]], id)
    {
      var levelOne := id[0];
      var data := idxdata[levelOne];
      if data.None? {
        return Ok(-1);
      }
      r := SearchBucket(data.value, id);
    }

    /**
     * The binary search of `findOffset` over one bucket's records: probe the
     * middle record, fail with an index-out-of-bounds error when its id runs
     * past the bucket, and halve the range by the unsigned id comparison.
     */
    static method SearchBucket(b: seq<byte>, id: ObjectId) returns (r: Result<int>)
      ensures r == Search(b, id, 0, RecordCount(b))
    {
      var high: nat := |b| / RECORD_LEN;
      var low: nat := 0;
      while true
        invariant low <= high <= RecordCount(b)
        invariant Search(b, id, low, high) == Search(b, id, 0, RecordCount(b))
        decreases high - low
      {
        var mid := (low + high) / 2;
        var pos := RECORD_LEN * mid + 4;
        ProbeInside(b, mid);
        if pos + ID_LENGTH > |b| {
          return Err(IndexOutOfBounds);
        }
        var cmp := Compare(id, RecordId(b, mid));
        if cmp < 0 {
          high := mid;
        } else if cmp == 0 {
          return Ok(RecordOffset(b, mid));
        } else {
          low := mid + 1;
        }
        if !(low < high) {
          return Ok(-1);
        }
      }
    }

    /** `hasObject(id)`: whether the index records an offset for `id`. */
    method HasObject(id: ObjectId) returns (r: Result<bool>)
      requires Valid()
      ensures BucketLookup(idxdata[id[0]], id).Ok? <==> r.Ok?
      ensures r.Ok? ==> r.value == (BucketLookup(idxdata[id[0]], id).value != -1)
      ensures r.Err? ==> r.error == BucketLookup(idxdata[id[0]], id).error
    {
      var offset := FindOffset(id);
      if offset.Err? {
        return Err(offset.error);
      }
      r := Ok(offset.value != -1);
    }

    /** `get(id)`: no loader when the index does not hold `id`, otherwise the reader's loader, tagged with `id`. */
    method Get(id: ObjectId) returns (r: Result<Option<Loader>>)
      requires Valid()
      ensures r == Retrieve(Buckets(), pack.data, id)
    {
      var offset := FindOffset(id);
      if offset.Err? {
        return Err(offset.error);
      }
      if offset.value == -1 {
        return Ok(None);
      }
      var objReader := Reader(offset.value);
      if objReader.Err? {
        return Err(objReader.error);
      }
      r := Ok(Some(objReader.value.(id := Some(id))));
    }

    /** `reader(objOffset)`: the loader for the object whose headers start at `objOffset`. */
    method Reader(objOffset: int) returns (r: Result<Loader>)
      ensures r == ObjectAt(pack.data, objOffset)
    {
      var ib := new byte[ID_LENGTH];
      var read := pack.ReadFullyInto(objOffset, ib);
      if read.Err? {
        return Err(read.error);
      }
      var h := ReadSizeHeader(ib);
      if h.Err? {
        return Err(h.error);
      }
      var typeCode, dataSize := h.value.typeCode, h.value.size;
      var pos := objOffset + h.value.length;
      var wholeType := WholeType(typeCode);
      if wholeType.Some? {
        return Ok(WholeLoader(wholeType.value, pos, dataSize));
      } else if typeCode == OBJ_OFS_DELTA {
        var again := pack.ReadFullyInto(pos, ib);
        if again.Err? {
          return Err(again.error);
        }
        var d := ReadBackOffset(ib);
        if d.Err? {
          return Err(d.error);
        }
        return Ok(Loader(OfsDelta(Int64(objOffset - d.value.ofs)), pos + d.value.length, Int32(dataSize), None));
      } else if typeCode == OBJ_REF_DELTA {
        var again := pack.ReadFullyInto(pos, ib);
        if again.Err? {
          return Err(again.error);
        }
        return Ok(Loader(RefDelta(ib[..]), pos + ib.Length, Int32(dataSize), None));
      } else {
        return Err(UnknownObjectType(typeCode));
      }
    }

    /**
     * The first loop of `reader`: the type code from bits 6-4 of the first
     * byte, then the size, 4 bits from the first byte and 7 from each
     * continuation byte. Running off the buffer fails.
     */
    static method ReadSizeHeader(ib: array<byte>) returns (r: Result<SizeHeader>)
      requires ib.Length > 0
      ensures r == DecodeSizeHeader(ib[..])
    {
      ghost var header := ib[..];
      var p := 0;
      var c := ib[p] as int;
      p := p + 1;
      var typeCode := (c / 16) % 8;
      var dataSize := c % 16;
      var shift := 4;
      while c >= 128
        invariant 1 <= p <= ib.Length
        invariant c == header[p - 1] && forall j :: 0 <= j < p - 1 ==> header[j] >= 128
        invariant dataSize == header[0] % 16 + SizeFrom(header[1..p], 4) && shift == 4 + 7 * (p - 1)
        decreases ib.Length - p
      {
        if p >= ib.Length {
          RunLengthOfUnterminated(header);
          return Err(IndexOutOfBounds);
        }
        c := ib[p] as int;
        SizeFromSnoc(header[1..p], header[p], 4);
        assert header[1..p + 1] == header[1..p] + [header[p]];
        p := p + 1;
        dataSize := dataSize + ShiftLeftInt(c % 128, shift);
        shift := shift + 7;
      }
      RunLengthOfTerminated(header[..p], header[p..]);
      assert header[..p] + header[p..] == header;
      r := Ok(SizeHeader(typeCode, dataSize, p));
    }

    /**
     * The offset-delta loop of `reader`: the distance back to the base, most
     * significant group first, with 1 added before every shift.
     */
    static method ReadBackOffset(ib: array<byte>) returns (r: Result<BackOffset>)
      requires ib.Length > 0
      ensures r == DecodeBackOffset(ib[..])
    {
      ghost var back := ib[..];
      var p := 0;
      var c := ib[p] as int;
      p := p + 1;
      var ofs := c % 128;
      assert back[..1] == [back[0]];
      while c >= 128
        invariant 1 <= p <= ib.Length
        invariant c == back[p - 1] && forall j :: 0 <= j < p - 1 ==> back[j] >= 128
        invariant ofs == OfsValue(back[..p])
        decreases ib.Length - p
      {
        ofs := Int64(ofs + 1);
        if p >= ib.Length {
          RunLengthOfUnterminated(back);
          return Err(IndexOutOfBounds);
        }
        c := ib[p] as int;
        OfsValueSnoc(back[..p], back[p]);
        assert back[..p + 1] == back[..p] + [back[p]];
        p := p + 1;
        ofs := Int64(ofs * 128);
        ofs := Int64(ofs + c % 128);
      }
      RunLengthOfTerminated(back[..p], back[p..]);
      assert back[..p] + back[p..] == back;
      r := Ok(BackOffset(ofs, p));
    }

    /** `close()`: releases the pack's handle. */
    method Close() returns (r: Result<()>)
      modifies pack
      ensures !pack.isOpen
      ensures r == if pack.closeFails then Err(CloseFailed) else Ok(())
    {
      r := pack.Close();
    }
  }
}
