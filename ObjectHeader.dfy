/**
 * The header in front of every object in a pack, and how the reader
 * classifies the object from it.
 *
 * The type/size header is a run of bytes, each with bit 7 meaning "another
 * byte follows": the first byte holds the type code in bits 6-4 and the low
 * 4 bits of the size, every further byte 7 more size bits, least significant
 * first. An offset-delta object is followed by a second run, the distance
 * back to its base, in a different encoding: most significant group first,
 * with 1 added before every shift. A ref-delta object is followed by the
 * 20-byte id of its base.
 */
module ObjectHeader {
  import opened JavaInts
  import opened Bytes
  import opened Errors
  import opened ByteSources

  const OBJ_COMMIT: int := 1
  const OBJ_TREE: int := 2
  const OBJ_BLOB: int := 3
  const OBJ_TAG: int := 4
  const OBJ_OFS_DELTA: int := 6
  const OBJ_REF_DELTA: int := 7

  /** A run of bytes in which exactly the last one has bit 7 clear. */
  ghost predicate Terminated(bs: seq<byte>) {
    |bs| >= 1 && bs[|bs| - 1] < 128 && forall i :: 0 <= i < |bs| - 1 ==> bs[i] >= 128
  }

  /**
   * How many bytes of `ib` a header run takes: up to and including the first
   * byte with bit 7 clear. None when every byte has it set, so the reader
   * would index past its buffer.
   */
  function RunLength(ib: seq<byte>): (r: Option<nat>)
    ensures r.Some? ==> 1 <= r.value <= |ib|
  {
    RunFrom(ib, 0)
  }

  /** The reader's scan for the end of a run, from index `i` of `ib` on. */
  function RunFrom(ib: seq<byte>, i: nat): (r: Option<nat>)
    ensures r.Some? ==> i < r.value <= |ib|
    decreases |ib| - i
  {
    if i >= |ib| then None
    else if ib[i] < 128 then Some(i + 1)
    else RunFrom(ib, i + 1)
  }

  /** The scan from `i` stops at the first byte from `i` on with bit 7 clear, and finds none only when there is none. */
  lemma {:induction false} RunFromStops(ib: seq<byte>, i: nat)
    ensures RunFrom(ib, i).Some? ==>
              ib[RunFrom(ib, i).value - 1] < 128 && forall k :: i <= k < RunFrom(ib, i).value - 1 ==> ib[k] >= 128
    ensures RunFrom(ib, i).None? ==> forall k :: i <= k < |ib| ==> ib[k] >= 128
    decreases |ib| - i
  {
    if i < |ib| && ib[i] >= 128 {
      RunFromStops(ib, i + 1);
    }
  }

  /** A run's length takes it to its first byte with bit 7 clear; no length means there is none. */
  lemma RunLengthTerminates(ib: seq<byte>)
    ensures RunLength(ib).Some? ==> Terminated(ib[..RunLength(ib).value])
    ensures RunLength(ib).None? ==> forall i :: 0 <= i < |ib| ==> ib[i] >= 128
  {
    RunFromStops(ib, 0);
  }

  /** A buffer in which every byte has bit 7 set holds no complete run. */
  lemma RunLengthOfUnterminated(ib: seq<byte>)
    requires forall i :: 0 <= i < |ib| ==> ib[i] >= 128
    ensures RunLength(ib) == None
  {
    RunLengthTerminates(ib);
  }

  /** A terminated run is read up to its end, whatever follows it. */
  lemma RunLengthOfTerminated(bs: seq<byte>, rest: seq<byte>)
    requires Terminated(bs)
    ensures RunLength(bs + rest) == Some(|bs|)
  {
    var s := bs + rest;
    assert s[|bs| - 1] == bs[|bs| - 1];
    RunLengthTerminates(s);
    var r := RunLength(s);
    if r.Some? {
      var n := r.value;
      assert s[n - 1] == s[..n][n - 1];
    }
  }

  // ---- the type/size header ----

  /**
   * The size bits that continuation bytes `bs` contribute when the first of
   * them is shifted by `shift`: `(c & 0x7f) << shift` per byte, a Java `int`
   * shift, summed in a `long`.
   */
  function SizeFrom(bs: seq<byte>, shift: nat): (r: int)
    decreases |bs|
  {
    if bs == [] then 0 else ShiftLeftInt(bs[0] % 128, shift) + SizeFrom(bs[1..], shift + 7)
  }

  lemma {:induction false} SizeFromSnoc(bs: seq<byte>, b: byte, shift: nat)
    ensures SizeFrom(bs + [b], shift) == SizeFrom(bs, shift) + ShiftLeftInt(b % 128, shift + 7 * |bs|)
    decreases |bs|
  {
    if bs == [] {
      assert SizeFrom([b], shift) == ShiftLeftInt(b % 128, shift) + SizeFrom([], shift + 7);
    } else {
      assert (bs + [b])[1..] == bs[1..] + [b];
      SizeFromSnoc(bs[1..], b, shift + 7);
    }
  }

  datatype SizeHeader = SizeHeader(typeCode: int, size: int, length: nat)

  /**
   * The type/size header at the start of the 20 bytes `ib` the reader
   * fetched: the type code (bits 6-4 of the first byte), the size, and how
   * many bytes the header took. A run that does not end within `ib` makes the
   * reader index past its buffer.
   */
  function DecodeSizeHeader(ib: seq<byte>): (r: Result<SizeHeader>)
    requires |ib| > 0
  {
    match RunLength(ib)
    case None => Err(IndexOutOfBounds)
    case Some(n) => Ok(SizeHeader((ib[0] / 16) % 8, ib[0] % 16 + SizeFrom(ib[1..n], 4), n))
  }

  /** The continuation bytes a writer emits for the size bits `v`, least significant group first. */
  function SizeGroups(v: nat): (r: seq<byte>)
    ensures |r| >= 1
  {
    if v < 128 then [v] else [128 + v % 128] + SizeGroups(v / 128)
  }

  /** A byte with bit 7 set in front of a complete run makes a longer complete run. */
  lemma TerminatedCons(b: byte, g: seq<byte>)
    requires b >= 128 && Terminated(g)
    ensures Terminated([b] + g)
  {
    var r := [b] + g;
    assert forall i :: 1 <= i < |r| ==> r[i] == g[i - 1];
  }

  lemma {:induction false} SizeGroupsTerminated(v: nat)
    ensures Terminated(SizeGroups(v))
    decreases v
  {
    if v >= 128 {
      SizeGroupsTerminated(v / 128);
      TerminatedCons(128 + v % 128, SizeGroups(v / 128));
    }
  }

  /** The type/size header a writer emits. */
  function EncodeSizeHeader(typeCode: nat, size: nat): (r: seq<byte>)
    requires typeCode < 8
    ensures |r| >= 1
  {
    if size < 16 then [typeCode * 16 + size]
    else [128 + typeCode * 16 + size % 16] + SizeGroups(size / 16)
  }

  /** What a writer emits is one complete run. */
  lemma SizeHeaderTerminated(typeCode: nat, size: nat)
    requires typeCode < 8
    ensures Terminated(EncodeSizeHeader(typeCode, size))
  {
    if size >= 16 {
      SizeGroupsTerminated(size / 16);
      TerminatedCons(128 + typeCode * 16 + size % 16, SizeGroups(size / 16));
    }
  }

  /** Splitting `v` into its low 7 bits and the rest splits its shifted value the same way. */
  lemma SplitShifted(v: nat, p: nat)
    ensures v * p == (v % 128) * p + (v / 128) * (128 * p)
  {
    var q, m := v / 128, v % 128;
    assert v == m + 128 * q;
    assert v * p == m * p + (128 * q) * p;
    assert (128 * q) * p == q * (128 * p);
  }

  /** One step of `SizeGroupsValue`: the first group plus the value of the rest. */
  lemma SizeGroupsStep(v: nat, shift: nat)
    requires v >= 128 && v * Pow2(shift) < TWO_31
    ensures (v / 128) * Pow2(shift + 7) < TWO_31
    ensures SizeFrom(SizeGroups(v / 128), shift + 7) == (v / 128) * Pow2(shift + 7) ==>
            SizeFrom(SizeGroups(v), shift) == v * Pow2(shift)
  {
    var p := Pow2(shift);
    var q, m := v / 128, v % 128;
    var g := SizeGroups(q);
    var p7 := Pow2(shift + 7);
    assert SizeFrom(SizeGroups(v), shift) == ShiftLeftInt(m, shift) + SizeFrom(g, shift + 7) by {
      assert SizeGroups(v) == [128 + m] + g;
      assert ([128 + m] + g)[1..] == g;
      assert (128 + m) % 128 == m;
    }
    assert v * p == m * p + q * p7 by {
      Pow2Seven(shift);
      SplitShifted(v, p);
    }
    MulNonneg(m, p);
    assert ShiftLeftInt(m, shift) == m * p by {
      ShiftLeftExact(m, shift);
    }
  }

  /** Groups of a value that fits in Java `int` range once shifted decode back to that value, shifted. */
  lemma {:induction false} SizeGroupsValue(v: nat, shift: nat)
    requires v * Pow2(shift) < TWO_31
    ensures SizeFrom(SizeGroups(v), shift) == v * Pow2(shift)
    decreases v
  {
    if v < 128 {
      assert SizeGroups(v) == [v];
      assert SizeFrom([v], shift) == ShiftLeftInt(v, shift) + SizeFrom([], shift + 7);
      ShiftLeftExact(v, shift);
    } else {
      SizeGroupsStep(v, shift);
      SizeGroupsValue(v / 128, shift + 7);
    }
  }

  lemma {:induction false} SizeGroupsLength(v: nat, k: nat)
    requires k >= 1 && v < Pow2(7 * k)
    ensures |SizeGroups(v)| <= k
    decreases v
  {
    if v >= 128 {
      Pow2Seven(7 * (k - 1));
      SizeGroupsLength(v / 128, k - 1);
    }
  }

  /**
   * Decoding what a writer emits for a type code and a size below 2^31 gives
   * back that type code and size, with the header's exact length, at most 5
   * bytes; what follows the header is never looked at.
   */
  lemma SizeHeaderRoundTrip(typeCode: nat, size: nat, rest: seq<byte>)
    requires typeCode < 8 && size < TWO_31
    ensures var enc := EncodeSizeHeader(typeCode, size);
            |enc| <= 5 && DecodeSizeHeader(enc + rest) == Ok(SizeHeader(typeCode, size, |enc|))
  {
    var enc := EncodeSizeHeader(typeCode, size);
    var ib := enc + rest;
    SizeHeaderTerminated(typeCode, size);
    RunLengthOfTerminated(enc, rest);
    SizeContinuation(typeCode, size, rest);
    FirstByteFields(ib[0], typeCode, size % 16, size >= 16);
    DecodedFields(ib, |enc|, typeCode, size);
  }

  /** The decoded header, given the run's length and the fields its bytes hold. */
  lemma DecodedFields(ib: seq<byte>, n: nat, typeCode: int, size: int)
    requires |ib| > 0 && RunLength(ib) == Some(n)
    requires (ib[0] / 16) % 8 == typeCode && ib[0] % 16 + SizeFrom(ib[1..n], 4) == size
    ensures DecodeSizeHeader(ib) == Ok(SizeHeader(typeCode, size, n))
  {
  }

  /** The first header byte carries the type code in bits 6-4 and the low size bits in bits 3-0. */
  lemma FirstByteFields(b0: byte, typeCode: nat, low: nat, more: bool)
    requires typeCode < 8 && low < 16 && b0 == (if more then 128 else 0) + typeCode * 16 + low
    ensures (b0 / 16) % 8 == typeCode && b0 % 16 == low
  {
  }

  /** The continuation bytes of an encoded header carry every size bit above the low four. */
  lemma SizeContinuation(typeCode: nat, size: nat, rest: seq<byte>)
    requires typeCode < 8 && size < TWO_31
    ensures var enc := EncodeSizeHeader(typeCode, size);
            (enc + rest)[0] == (if size >= 16 then 128 else 0) + typeCode * 16 + size % 16
            && |enc| <= 5 && SizeFrom((enc + rest)[1..|enc|], 4) == size - size % 16
  {
    var enc := EncodeSizeHeader(typeCode, size);
    var ib := enc + rest;
    if size >= 16 {
      var v := size / 16;
      assert ib[1..|enc|] == SizeGroups(v);
      assert v * 16 == size - size % 16;
      assert SizeFrom(SizeGroups(v), 4) == v * 16 by {
        Pow2Groups();
        SizeGroupsValue(v, 4);
      }
      assert |SizeGroups(v)| <= 4 by {
        Pow2TwentyEight();
        SizeGroupsLength(v, 4);
      }
    } else {
      assert ib[1..|enc|] == [];
    }
  }

  // ---- the offset-delta back-offset ----

  /** One further byte `c` of a back-offset: `ofs += 1; ofs <<= 7; ofs += c & 127`, in Java `long`. */
  function OfsStep(ofs: int, c: byte): (r: int) {
    Int64(Int64(Int64(ofs + 1) * 128) + c % 128)
  }

  lemma OfsStepInRange(w: nat, c: byte)
    requires (w + 1) * 128 + c % 128 < TWO_63
    ensures OfsStep(w, c) == (w + 1) * 128 + c % 128
  {
    var a := w + 1;
    assert Int64(a) == a;
    var b := a * 128;
    assert Int64(b) == b;
  }

  /** The value of a back-offset run: the first byte's low 7 bits, then an `OfsStep` per further byte. */
  function OfsValue(bs: seq<byte>): (r: int)
    requires |bs| >= 1
    decreases |bs|
  {
    if |bs| == 1 then bs[0] % 128
    else OfsStep(OfsValue(bs[..|bs| - 1]), bs[|bs| - 1])
  }

  datatype BackOffset = BackOffset(ofs: int, length: nat)

  /** The back-offset at the start of the 20 bytes `ib`, and how many bytes it took. */
  function DecodeBackOffset(ib: seq<byte>): (r: Result<BackOffset>)
    requires |ib| > 0
  {
    match RunLength(ib)
    case None => Err(IndexOutOfBounds)
    case Some(n) => Ok(BackOffset(OfsValue(ib[..n]), n))
  }

  /** Sets bit 7 of the last byte of a run, so that another byte can follow it. */
  function Continued(bs: seq<byte>): (r: seq<byte>)
    requires |bs| >= 1 && bs[|bs| - 1] < 128
    ensures |r| == |bs| && r[|r| - 1] >= 128
  {
    bs[..|bs| - 1] + [bs[|bs| - 1] + 128]
  }

  /** Continuing a complete run sets bit 7 of every byte of it. */
  lemma ContinuedAll(bs: seq<byte>)
    requires Terminated(bs)
    ensures forall i :: 0 <= i < |bs| ==> Continued(bs)[i] >= 128
  {
    assert forall i :: 0 <= i < |bs| - 1 ==> Continued(bs)[i] == bs[i];
  }

  /** The back-offset a writer emits for a distance `v`, most significant group first. */
  function EncodeBackOffset(v: nat): (r: seq<byte>)
    ensures |r| >= 1 && r[|r| - 1] < 128
    decreases v
  {
    if v < 128 then [v]
    else Continued(EncodeBackOffset(v / 128 - 1)) + [v % 128]
  }

  /** What a writer emits is one complete run. */
  lemma {:induction false} BackOffsetTerminated(v: nat)
    ensures Terminated(EncodeBackOffset(v))
    decreases v
  {
    if v >= 128 {
      var inner := EncodeBackOffset(v / 128 - 1);
      BackOffsetTerminated(v / 128 - 1);
      ContinuedAll(inner);
      var r := EncodeBackOffset(v);
      assert forall i :: 0 <= i < |r| - 1 ==> r[i] == Continued(inner)[i];
    }
  }

  lemma OfsValueContinued(bs: seq<byte>)
    requires Terminated(bs)
    ensures OfsValue(Continued(bs)) == OfsValue(bs)
  {
    var c := Continued(bs);
    var last := |bs| - 1;
    assert c[last] == bs[last] + 128;
    assert c[last] % 128 == bs[last] % 128;
    if last > 0 {
      assert c[..last] == bs[..last];
    }
  }

  lemma OfsValueSnoc(prefix: seq<byte>, c: byte)
    requires |prefix| >= 1
    ensures OfsValue(prefix + [c]) == OfsStep(OfsValue(prefix), c)
  {
    assert (prefix + [c])[..|prefix|] == prefix;
  }

  /** Appending a byte to a continued run of value `w` gives `(w + 1) * 128 + c`, while that fits in a `long`. */
  lemma OfsValueAppend(inner: seq<byte>, c: byte, w: nat)
    requires Terminated(inner) && OfsValue(inner) == w && c < 128 && (w + 1) * 128 + c < TWO_63
    ensures OfsValue(Continued(inner) + [c]) == (w + 1) * 128 + c
  {
    OfsValueContinuedSnoc(inner, c);
    OfsStepExact(w, c);
  }

  /** Continuing a run and appending a byte is one `OfsStep` on the run's value. */
  lemma OfsValueContinuedSnoc(inner: seq<byte>, c: byte)
    requires Terminated(inner)
    ensures OfsValue(Continued(inner) + [c]) == OfsStep(OfsValue(inner), c)
  {
    OfsValueSnoc(Continued(inner), c);
    OfsValueContinued(inner);
  }

  lemma OfsStepExact(w: nat, c: byte)
    requires c < 128 && (w + 1) * 128 + c < TWO_63
    ensures OfsStep(w, c) == (w + 1) * 128 + c
  {
    assert c % 128 == c;
    OfsStepInRange(w, c);
  }

  /** The back-offset encoding decodes back to the distance it encodes, for any distance below 2^63. */
  lemma {:induction false} BackOffsetValue(v: nat)
    requires v < TWO_63
    ensures OfsValue(EncodeBackOffset(v)) == v
    decreases v
  {
    if v >= 128 {
      var w := v / 128 - 1;
      var inner := EncodeBackOffset(w);
      assert EncodeBackOffset(v) == Continued(inner) + [v % 128];
      BackOffsetValue(w);
      BackOffsetTerminated(w);
      OfsValueAppend(inner, v % 128, w);
    }
  }

  lemma {:induction false} BackOffsetLength(v: nat, k: nat)
    requires k >= 1 && v < Pow2(7 * k)
    ensures |EncodeBackOffset(v)| <= k
    decreases v
  {
    if v >= 128 {
      Pow2Seven(7 * (k - 1));
      BackOffsetLength(v / 128 - 1, k - 1);
    }
  }

  /**
   * Decoding what a writer emits for a distance below 2^32 gives back that
   * distance and the encoding's exact length, at most 5 bytes.
   */
  lemma BackOffsetRoundTrip(v: nat, rest: seq<byte>)
    requires v < TWO_32
    ensures var enc := EncodeBackOffset(v);
            |enc| <= 5 && DecodeBackOffset(enc + rest) == Ok(BackOffset(v, |enc|))
  {
    var enc := EncodeBackOffset(v);
    assert |enc| <= 5 by {
      Pow2ThirtyFive();
      BackOffsetLength(v, 5);
    }
    assert OfsValue(enc) == v by {
      BackOffsetValue(v);
    }
    BackOffsetTerminated(v);
    RunLengthOfTerminated(enc, rest);
    assert (enc + rest)[..|enc|] == enc;
  }

  /** Worked example: the single header byte 0x34 is a blob (type 3) of size 4, whatever the other 19 bytes hold. */
  lemma BlobHeaderExample(rest: seq<byte>)
    ensures EncodeSizeHeader(OBJ_BLOB, 4) == [0x34]
    ensures DecodeSizeHeader([0x34] + rest) == Ok(SizeHeader(OBJ_BLOB, 4, 1))
  {
    SizeHeaderRoundTrip(OBJ_BLOB, 4, rest);
  }

  /** Worked example: the header 94 05 is a commit (type 1) of size 4 + (5 << 4) = 84. */
  lemma CommitHeaderExample(rest: seq<byte>)
    ensures EncodeSizeHeader(OBJ_COMMIT, 84) == [0x94, 0x05]
    ensures DecodeSizeHeader([0x94, 0x05] + rest) == Ok(SizeHeader(OBJ_COMMIT, 84, 2))
  {
    assert SizeGroups(5) == [0x05];
    SizeHeaderRoundTrip(OBJ_COMMIT, 84, rest);
  }

  /** Worked example: the back-offset 81 02 is the distance ((1 + 1) << 7) + 2 = 258. */
  lemma BackOffsetExample(rest: seq<byte>)
    ensures EncodeBackOffset(258) == [0x81, 0x02]
    ensures DecodeBackOffset([0x81, 0x02] + rest) == Ok(BackOffset(258, 2))
  {
    assert EncodeBackOffset(258) == [0x81, 0x02] by {
      assert EncodeBackOffset(1) == [0x01];
      assert Continued([0x01]) == [0x81];
    }
    BackOffsetRoundTrip(258, rest);
  }

  lemma SizeFromCons(bs: seq<byte>, shift: nat)
    requires |bs| >= 1
    ensures SizeFrom(bs, shift) == ShiftLeftInt(bs[0] % 128, shift) + SizeFrom(bs[1..], shift + 7)
  {
  }

  /** The size bits of four continuation bytes, one shifted group each. */
  lemma SizeFromFour(bs: seq<byte>, shift: nat)
    requires |bs| == 4
    ensures SizeFrom(bs, shift) == ShiftLeftInt(bs[0] % 128, shift) + ShiftLeftInt(bs[1] % 128, shift + 7)
                                   + ShiftLeftInt(bs[2] % 128, shift + 14) + ShiftLeftInt(bs[3] % 128, shift + 21)
  {
    SizeFromCons(bs, shift);
    SizeFromCons(bs[1..], shift + 7);
    assert bs[1..][1..] == bs[2..];
    SizeFromCons(bs[2..], shift + 14);
    assert bs[2..][1..] == bs[3..];
    SizeFromCons(bs[3..], shift + 21);
    assert bs[3..][1..] == [];
  }

  /** A group of 64 or more shifted by 25 sets the `int` sign bit: the shift wraps to 2^32 less. */
  lemma ShiftLeftWraps(g: nat)
    requires 64 <= g < 128
    ensures ShiftLeftInt(g, 25) == g * 0x200_0000 - TWO_32
  {
    assert Int32(g * 0x200_0000) == g * 0x200_0000 - TWO_32 by {
      var v := g * 0x200_0000;
      assert TWO_31 <= v < TWO_32;
      assert v % TWO_32 == v;
    }
    assert ShiftLeftInt(g, 25) == Int32(g * 0x200_0000) by {
      Pow2Groups();
      ShiftLeftBitsValue(g, 25);
    }
  }

  /**
   * The size is summed from `int` shifts, so a fifth header byte whose group
   * has bit 6 set carries into the sign bit: such a header decodes to a
   * negative size (8F FF FF FF 7F, for one, reads as -1).
   */
  lemma SizeHeaderWraps(ib: seq<byte>)
    requires |ib| >= 5 && ib[0] >= 128 && ib[1] >= 128 && ib[2] >= 128 && ib[3] >= 128
    requires 64 <= ib[4] < 128
    ensures DecodeSizeHeader(ib).Ok?
    ensures DecodeSizeHeader(ib).value.length == 5 && DecodeSizeHeader(ib).value.size < 0
  {
    var h := ib[..5];
    assert Terminated(h);
    assert ib == h + ib[5..];
    RunLengthOfTerminated(h, ib[5..]);
    var g := ib[1..5];
    var a0: int, a1: int, a2: int, a3: int := g[0] % 128, g[1] % 128, g[2] % 128, g[3] % 128;
    assert 64 <= a3 < 128;
    assert SizeFrom(g, 4) == ShiftLeftInt(a0, 4) + ShiftLeftInt(a1, 11) + ShiftLeftInt(a2, 18) + ShiftLeftInt(a3, 25) by {
      SizeFromFour(g, 4);
    }
    assert ShiftLeftInt(a0, 4) == a0 * 16 && ShiftLeftInt(a1, 11) == a1 * 0x800 && ShiftLeftInt(a2, 18) == a2 * 0x4_0000 by {
      Pow2Groups();
      ShiftLeftExact(a0, 4);
      ShiftLeftExact(a1, 11);
      ShiftLeftExact(a2, 18);
    }
    assert ShiftLeftInt(a3, 25) == a3 * 0x200_0000 - TWO_32 by {
      ShiftLeftWraps(a3);
    }
  }
}
