/**
 * What the pack reader makes of the object at a given offset: the loader it
 * builds (whole object, offset delta or reference delta), with the position
 * of the object's compressed data and its inflated size. The loaders
 * themselves, which inflate the data and resolve delta bases, are not part of
 * this model; a loader is the value the reader hands them.
 */
module ObjectReader {
  import opened JavaInts
  import opened Bytes
  import opened Errors
  import opened ByteSources
  import opened ObjectHeader

  datatype ObjectType = Commit | Tree | Blob | Tag

  datatype Kind =
    | Whole(objectType: ObjectType)
    /** A delta against the object at `baseOffset` in the same pack. */
    | OfsDelta(baseOffset: int)
    /** A delta against the object named `baseId`. */
    | RefDelta(baseId: ObjectId)

  /**
   * A loader for one packed object: its kind, where its compressed data
   * starts, its inflated size as a Java `int`, and the id `get` attached to
   * it (None until then).
   */
  datatype Loader = Loader(kind: Kind, dataOffset: int, size: int, id: Option<ObjectId>)

  /** The type named by a whole-object type code; None for the delta codes and the unused ones. */
  function WholeType(typeCode: int): (r: Option<ObjectType>)
    ensures r.Some? <==> 1 <= typeCode <= 4
  {
    if typeCode == OBJ_COMMIT then Some(Commit)
    else if typeCode == OBJ_TREE then Some(Tree)
    else if typeCode == OBJ_BLOB then Some(Blob)
    else if typeCode == OBJ_TAG then Some(Tag)
    else None
  }

  /** `whole(type, pos, size)`: a whole-object loader, the size cast to `int`. */
  function WholeLoader(t: ObjectType, pos: int, size: int): (r: Loader)
    ensures r.kind == Whole(t) && r.dataOffset == pos && r.id == None
    ensures -TWO_31 <= size < TWO_31 ==> r.size == size
  {
    Loader(Whole(t), pos, Int32(size), None)
  }

  /**
   * `reader(objOffset)`: read 20 bytes at the offset, decode the type/size
   * header from them, and build the loader the type code calls for.
   */
  function ObjectAt(pack: seq<byte>, objOffset: int): (r: Result<Loader>) {
    match ReadFully(pack, objOffset, ID_LENGTH)
    case Err(e) => Err(e)
    case Ok(ib) =>
      match DecodeSizeHeader(ib)
      case Err(e) => Err(e)
      case Ok(h) => LoaderFor(pack, objOffset, h)
  }

  /**
   * The reader's switch on the type code of the header `h` read at
   * `objOffset`. An offset delta reads 20 more bytes after the header for its
   * back-offset, a reference delta the 20-byte base id; any other type code
   * is an error.
   */
  function LoaderFor(pack: seq<byte>, objOffset: int, h: SizeHeader): (r: Result<Loader>) {
    var pos := objOffset + h.length;
    if WholeType(h.typeCode).Some? then
      Ok(WholeLoader(WholeType(h.typeCode).value, pos, h.size))
    else if h.typeCode == OBJ_OFS_DELTA then
      match ReadFully(pack, pos, ID_LENGTH)
      case Err(e) => Err(e)
      case Ok(ob) =>
        match DecodeBackOffset(ob)
        case Err(e) => Err(e)
        case Ok(d) => Ok(Loader(OfsDelta(Int64(objOffset - d.ofs)), pos + d.length, Int32(h.size), None))
    else if h.typeCode == OBJ_REF_DELTA then
      match ReadFully(pack, pos, ID_LENGTH)
      case Err(e) => Err(e)
      case Ok(rb) => Ok(Loader(RefDelta(rb), pos + ID_LENGTH, Int32(h.size), None))
    else Err(UnknownObjectType(h.typeCode))
  }

  /** The header bytes a writer emits, read back at their own position in the pack. */
  lemma HeaderAt(prefix: seq<byte>, typeCode: nat, size: nat, rest: seq<byte>)
    requires typeCode < 8 && size < TWO_31
    requires |EncodeSizeHeader(typeCode, size)| + |rest| >= ID_LENGTH
    ensures var enc := EncodeSizeHeader(typeCode, size);
            var data := prefix + enc + rest;
            ReadFully(data, |prefix|, ID_LENGTH).Ok?
            && DecodeSizeHeader(ReadFully(data, |prefix|, ID_LENGTH).value) == Ok(SizeHeader(typeCode, size, |enc|))
  {
    var enc := EncodeSizeHeader(typeCode, size);
    assert |enc| <= ID_LENGTH by {
      SizeHeaderRoundTrip(typeCode, size, []);
    }
    ReadFullyAt(prefix, enc, rest, ID_LENGTH);
    SizeHeaderRoundTrip(typeCode, size, rest[..ID_LENGTH - |enc|]);
  }

  /** The back-offset bytes a writer emits, read back at their own position in the pack. */
  lemma BackOffsetAt(prefix: seq<byte>, distance: nat, rest: seq<byte>)
    requires distance < TWO_32
    requires |EncodeBackOffset(distance)| + |rest| >= ID_LENGTH
    ensures var ofs := EncodeBackOffset(distance);
            var data := prefix + ofs + rest;
            ReadFully(data, |prefix|, ID_LENGTH).Ok?
            && DecodeBackOffset(ReadFully(data, |prefix|, ID_LENGTH).value) == Ok(BackOffset(distance, |ofs|))
  {
    var ofs := EncodeBackOffset(distance);
    assert |ofs| <= ID_LENGTH by {
      BackOffsetRoundTrip(distance, []);
    }
    ReadFullyAt(prefix, ofs, rest, ID_LENGTH);
    BackOffsetRoundTrip(distance, rest[..ID_LENGTH - |ofs|]);
  }

  /** A whole object's header yields a loader of its type whose data starts right after the header. */
  lemma ObjectAtWhole(prefix: seq<byte>, typeCode: nat, size: nat, rest: seq<byte>)
    requires 1 <= typeCode <= 4 && size < TWO_31
    requires |EncodeSizeHeader(typeCode, size)| + |rest| >= ID_LENGTH
    ensures var enc := EncodeSizeHeader(typeCode, size);
            ObjectAt(prefix + enc + rest, |prefix|)
            == Ok(Loader(Whole(WholeType(typeCode).value), |prefix| + |enc|, size, None))
  {
    HeaderAt(prefix, typeCode, size, rest);
  }

  /**
   * An offset delta's headers yield a loader whose base lies the encoded
   * distance before the object and whose data starts after both headers.
   */
  lemma ObjectAtOfsDelta(prefix: seq<byte>, size: nat, distance: nat, rest: seq<byte>)
    requires size < TWO_31 && distance < TWO_32 && |prefix| < TWO_63
    requires |EncodeBackOffset(distance)| + |rest| >= ID_LENGTH
    ensures var enc := EncodeSizeHeader(OBJ_OFS_DELTA, size);
            var ofs := EncodeBackOffset(distance);
            ObjectAt(prefix + enc + ofs + rest, |prefix|)
            == Ok(Loader(OfsDelta(|prefix| - distance), |prefix| + |enc| + |ofs|, size, None))
  {
    var enc := EncodeSizeHeader(OBJ_OFS_DELTA, size);
    var ofs := EncodeBackOffset(distance);
    assert |enc| <= 5 by {
      SizeHeaderRoundTrip(OBJ_OFS_DELTA, size, []);
    }
    assert |ofs| <= 5 by {
      BackOffsetRoundTrip(distance, []);
    }
    var data := prefix + enc + ofs + rest;
    var t1, t2 := (ofs + rest)[..ID_LENGTH - |enc|], rest[..ID_LENGTH - |ofs|];
    TwoReads(prefix, enc, ofs, rest);
    SizeHeaderRoundTrip(OBJ_OFS_DELTA, size, t1);
    BackOffsetRoundTrip(distance, t2);
    OfsDeltaAt(data, |prefix|, enc + t1, SizeHeader(OBJ_OFS_DELTA, size, |enc|), ofs + t2, BackOffset(distance, |ofs|));
  }

  /** The two 20-byte reads of an offset delta: one where its type/size header starts, one where its back-offset starts. */
  lemma TwoReads(prefix: seq<byte>, enc: seq<byte>, ofs: seq<byte>, rest: seq<byte>)
    requires |enc| <= ID_LENGTH && |ofs| <= ID_LENGTH && |ofs| + |rest| >= ID_LENGTH
    ensures ReadFully(prefix + enc + ofs + rest, |prefix|, ID_LENGTH) == Ok(enc + (ofs + rest)[..ID_LENGTH - |enc|])
    ensures ReadFully(prefix + enc + ofs + rest, |prefix| + |enc|, ID_LENGTH) == Ok(ofs + rest[..ID_LENGTH - |ofs|])
  {
    assert prefix + enc + ofs + rest == prefix + enc + (ofs + rest);
    ReadFullyAt(prefix, enc, ofs + rest, ID_LENGTH);
    ReadFullyAt(prefix + enc, ofs, rest, ID_LENGTH);
  }

  /** The reader on an offset delta, once its two headers have been read and decoded. */
  lemma OfsDeltaAt(pack: seq<byte>, objOffset: int, ib: seq<byte>, h: SizeHeader, ob: seq<byte>, d: BackOffset)
    requires ReadFully(pack, objOffset, ID_LENGTH) == Ok(ib) && DecodeSizeHeader(ib) == Ok(h)
    requires h.typeCode == OBJ_OFS_DELTA
    requires ReadFully(pack, objOffset + h.length, ID_LENGTH) == Ok(ob) && DecodeBackOffset(ob) == Ok(d)
    ensures ObjectAt(pack, objOffset)
            == Ok(Loader(OfsDelta(Int64(objOffset - d.ofs)), objOffset + h.length + d.length, Int32(h.size), None))
  {
    assert |ib| > 0 && |ob| > 0;
    assert WholeType(h.typeCode).None?;
  }

  /** A reference delta's header yields a loader naming the 20-byte base id that follows the header. */
  lemma ObjectAtRefDelta(prefix: seq<byte>, size: nat, base: ObjectId, rest: seq<byte>)
    requires size < TWO_31
    ensures var enc := EncodeSizeHeader(OBJ_REF_DELTA, size);
            ObjectAt(prefix + enc + base + rest, |prefix|)
            == Ok(Loader(RefDelta(base), |prefix| + |enc| + ID_LENGTH, size, None))
  {
    var enc := EncodeSizeHeader(OBJ_REF_DELTA, size);
    var data := prefix + enc + base + rest;
    assert data == prefix + enc + (base + rest);
    HeaderAt(prefix, OBJ_REF_DELTA, size, base + rest);
    var pos := |prefix| + |enc|;
    assert data[pos..pos + ID_LENGTH] == base;
  }

  /**
   * The reader rejects exactly the type codes 0 and 5: once the header has
   * been read, the result is an unknown-type error if and only if the header's
   * type code is one of them, and the error carries that code.
   */
  lemma ObjectAtUnknownType(pack: seq<byte>, objOffset: int, h: SizeHeader)
    requires ReadFully(pack, objOffset, ID_LENGTH).Ok?
    requires DecodeSizeHeader(ReadFully(pack, objOffset, ID_LENGTH).value) == Ok(h)
    ensures ObjectAt(pack, objOffset).Err? && ObjectAt(pack, objOffset).error.UnknownObjectType?
            <==> h.typeCode == 0 || h.typeCode == 5
    ensures ObjectAt(pack, objOffset).Err? && ObjectAt(pack, objOffset).error.UnknownObjectType?
            ==> ObjectAt(pack, objOffset).error.typeCode == h.typeCode
  {
    var ib := ReadFully(pack, objOffset, ID_LENGTH).value;
    assert 0 <= ib[0] / 16 % 8 < 8;
  }

  /** An offset with fewer than 20 bytes from it to the end of the pack, or a negative one, is a short read. */
  lemma ObjectAtOutside(pack: seq<byte>, objOffset: int)
    requires objOffset < 0 || objOffset + ID_LENGTH > |pack|
    ensures ObjectAt(pack, objOffset) == Err(ShortRead)
  {
  }
}
