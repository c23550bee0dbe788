/**
 * The random-access file a pack or an index is read from (jgit's
 * `WindowedFile`). Only what the pack reader observes is modelled: the file's
 * bytes as a value, positioned reads, and whether the handle is open.
 * Window caching and decompression are not part of this model.
 */
module ByteSources {
  import opened Bytes
  import opened Errors

  class ByteSource {
    /** The whole file. */
    const data: seq<byte>
    /** Whether `Close` reports an I/O error. */
    const closeFails: bool
    var isOpen: bool

    constructor (data: seq<byte>, closeFails: bool)
      ensures this.data == data && this.closeFails == closeFails && !isOpen
    {
      this.data := data;
      this.closeFails := closeFails;
      isOpen := false;
    }

    method Open()
      modifies this
      ensures isOpen
    {
      isOpen := true;
    }

    /** Releases the handle; the handle is released even when closing reports an error. */
    method Close() returns (r: Result<()>)
      modifies this
      ensures !isOpen
      ensures r == if closeFails then Err(CloseFailed) else Ok(())
    {
      isOpen := false;
      r := if closeFails then Err(CloseFailed) else Ok(());
    }

    /**
     * `read(pos, buf)`: copies into `buf` the bytes the file has from `pos`
     * on, at most `buf.Length` of them, leaves the rest of `buf` alone, and
     * returns how many it copied. A negative position fails.
     */
    method ReadInto(pos: int, buf: array<byte>) returns (r: Result<nat>)
      modifies buf
      ensures pos < 0 ==> r == Err(ShortRead) && buf[..] == old(buf[..])
      ensures pos >= 0 ==> r == Ok(Available(data, pos, buf.Length))
      ensures pos >= 0 ==>
                forall i :: 0 <= i < buf.Length ==> buf[i] == if i < Available(data, pos, buf.Length) then data[pos + i] else old(buf[i])
    {
      if pos < 0 {
        return Err(ShortRead);
      }
      var n := Available(data, pos, buf.Length);
      forall i | 0 <= i < n {
        buf[i] := data[pos + i];
      }
      r := Ok(n);
    }

    /** `readFully(pos, buf)`: fills `buf` with the bytes at `pos`, or fails when the file has too few. */
    method ReadFullyInto(pos: int, buf: array<byte>) returns (r: Result<()>)
      modifies buf
      ensures r == if ReadFully(data, pos, buf.Length).Ok? then Ok(()) else Err(ShortRead)
      ensures r.Ok? ==> buf[..] == ReadFully(data, pos, buf.Length).value
    {
      if 0 <= pos && pos + buf.Length <= |data| {
        forall i | 0 <= i < buf.Length {
          buf[i] := data[pos + i];
        }
        r := Ok(());
      } else {
        r := Err(ShortRead);
      }
    }
  }

  /** `readFully(pos, buf)`: exactly `len` bytes at `pos`, or a short-read failure. */
  function ReadFully(data: seq<byte>, pos: int, len: nat): (r: Result<seq<byte>>)
    ensures r.Ok? ==> |r.value| == len
  {
    if 0 <= pos && pos + len <= |data| then Ok(data[pos..pos + len]) else Err(ShortRead)
  }

  /** Reading `len` bytes where `mid` starts gives `mid` and the start of what follows it. */
  lemma ReadFullyAt(prefix: seq<byte>, mid: seq<byte>, rest: seq<byte>, len: nat)
    requires |mid| <= len <= |mid| + |rest|
    ensures ReadFully(prefix + mid + rest, |prefix|, len) == Ok(mid + rest[..len - |mid|])
  {
    var data := prefix + mid + rest;
    assert data[|prefix|..|prefix| + len] == mid + rest[..len - |mid|];
  }

  /** How many bytes `read(pos, buf)` delivers into a buffer of `len` bytes. */
  function Available(data: seq<byte>, pos: nat, len: nat): (r: nat)
    ensures r <= len
  {
    if pos >= |data| then 0 else if |data| - pos < len then |data| - pos else len
  }

  /**
   * `read(pos, buf)` into a fresh buffer of `len` bytes: the bytes the file
   * has from `pos` on, the rest of the buffer left zero.
   */
  function ReadPadded(data: seq<byte>, pos: int, len: nat): (r: Result<seq<byte>>)
    ensures r.Ok? ==> |r.value| == len
  {
    if pos < 0 then Err(ShortRead)
    else Ok(seq(len, i requires 0 <= i < len => if pos + i < |data| then data[pos + i] else 0))
  }

  /** A read that lies inside the file delivers exactly the file's bytes. */
  lemma ReadPaddedInside(data: seq<byte>, pos: int, len: nat)
    requires 0 <= pos && pos + len <= |data|
    ensures ReadPadded(data, pos, len) == Ok(data[pos .. pos + len])
  {
    assert ReadPadded(data, pos, len).value == data[pos .. pos + len];
  }

  /** `readUInt32(pos, intbuf)`: the big-endian unsigned word at `pos`. */
  function ReadUInt32(data: seq<byte>, pos: int): (r: Result<nat>)
    ensures r.Ok? ==> r.value < 0x1_0000_0000
  {
    if 0 <= pos && pos + 4 <= |data| then Ok(Be32(data, pos)) else Err(ShortRead)
  }
}
