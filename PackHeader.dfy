/**
 * The 12-byte preamble of a pack: the signature "PACK", a big-endian
 * version that must be 2 or 3, and the big-endian object count.
 */
module PackHeader {
  import opened Bytes
  import opened Errors
  import opened ByteSources

  /** 'P', 'A', 'C', 'K'. */
  const SIGNATURE: seq<byte> := [0x50, 0x41, 0x43, 0x4B]

  /**
   * What reading the preamble of `data` yields: the object count, or the
   * failure the reader raises. The checks run in `readPackHeader`'s order: the
   * four signature bytes must all be readable and match, then the version
   * word must be readable and be 2 or 3, then the count word must be readable.
   */
  function ParsePackHeader(data: seq<byte>): (r: Result<nat>)
  {
    if Available(data, 0, |SIGNATURE|) != |SIGNATURE| then Err(NotAPackFile)
    else if data[..|SIGNATURE|] != SIGNATURE then Err(NotAPackFile)
    else match ReadUInt32(data, 4)
      case Err(e) => Err(e)
      case Ok(version) =>
        if version != 2 && version != 3 then Err(UnsupportedVersion(version))
        else ReadUInt32(data, 8)
  }

  /** The preamble a pack writer emits. */
  function EncodePackHeader(version: nat, count: nat): (r: seq<byte>)
    requires version < 0x1_0000_0000 && count < 0x1_0000_0000
    ensures |r| == 12
  {
    SIGNATURE + EncodeBe32(version) + EncodeBe32(count)
  }

  /** A preamble with a supported version parses back to its count; any other version is refused by number. */
  lemma PackHeaderRoundTrip(version: nat, count: nat, rest: seq<byte>)
    requires version < 0x1_0000_0000 && count < 0x1_0000_0000
    ensures ParsePackHeader(EncodePackHeader(version, count) + rest)
         == if version == 2 || version == 3 then Ok(count) else Err(UnsupportedVersion(version))
  {
    var data := EncodePackHeader(version, count) + rest;
    assert data[..4] == SIGNATURE;
    Be32RoundTrip(SIGNATURE, version, EncodeBe32(count) + rest);
    assert data == SIGNATURE + EncodeBe32(version) + (EncodeBe32(count) + rest);
    Be32RoundTrip(SIGNATURE + EncodeBe32(version), count, rest);
  }

  /** The preamble is accepted exactly when it is long enough, signed and of version 2 or 3; the count is then the third word. */
  lemma PackHeaderAccepted(data: seq<byte>)
    ensures ParsePackHeader(data).Ok? <==>
              |data| >= 12 && data[..4] == SIGNATURE && (Be32(data, 4) == 2 || Be32(data, 4) == 3)
    ensures ParsePackHeader(data).Ok? ==> ParsePackHeader(data).value == Be32(data, 8)
  {
  }

  /** "Not a PACK file." is raised exactly when the first four bytes are missing or are not the signature. */
  lemma PackHeaderSignatureRejected(data: seq<byte>)
    ensures ParsePackHeader(data) == Err(NotAPackFile) <==> |data| < 4 || data[..4] != SIGNATURE
  {
  }

  /** A signed preamble whose version word is neither 2 nor 3 is refused with that version. */
  lemma PackHeaderVersionRejected(data: seq<byte>)
    requires |data| >= 8 && data[..4] == SIGNATURE
    ensures ParsePackHeader(data).Err? && ParsePackHeader(data).error.UnsupportedVersion?
        <==> Be32(data, 4) != 2 && Be32(data, 4) != 3
  {
  }
}
