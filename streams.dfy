/**
 * The java.io stream behaviour the library depends on: a byte source that may
 * deliver fewer bytes than asked for, report end of stream, fail with an
 * IOException, and (when it supports it) return to a marked position; and a
 * byte sink that accumulates what is written to it.
 */
module Streams {

  /** An unsigned byte, the value of `b & 0xFF` for a Java byte b. */
  type Byte = b: int | 0 <= b < 256

  /** What one call of InputStream.read(buf, off, len) reports. */
  datatype ReadOutcome =
    | Count(n: nat)     // n bytes were stored at buf[off..off + n]
    | EndOfStream       // the call returned -1
    | IOFailure         // the call threw an IOException

  class InputStream {
    /** Everything the stream will ever deliver. */
    const data: seq<Byte>
    /** The number of bytes already consumed. */
    var pos: nat
    /** The position that reset() returns to. */
    var markPos: nat
    /** InputStream.markSupported(). */
    const markSupported: bool
    /** The most bytes a single read delivers (a socket or pipe hands out short reads). */
    const chunk: nat
    /** Every read throws an IOException. */
    const broken: bool

    ghost predicate Valid()
      reads this
    {
      pos <= |data| && markPos <= |data| && chunk >= 1
    }

    constructor (content: seq<Byte>, supportsMark: bool, chunkSize: nat, failing: bool)
      requires chunkSize >= 1
      ensures Valid()
      ensures data == content && pos == 0 && markPos == 0
      ensures markSupported == supportsMark && chunk == chunkSize && broken == failing
    {
      data := content;
      pos := 0;
      markPos := 0;
      markSupported := supportsMark;
      chunk := chunkSize;
      broken := failing;
    }

    /** The bytes not yet consumed. */
    function Rest(): seq<Byte>
      reads this
      requires Valid()
    {
      data[pos..]
    }

    /**
     * read(buf, off, len) with len > 0: a broken stream throws, an exhausted one
     * reports -1, otherwise between 1 and len of the next bytes are stored at off.
     */
    method Read(buf: array<Byte>, off: nat, len: nat) returns (r: ReadOutcome)
      requires Valid()
      requires 0 < len && off + len <= buf.Length
      modifies this, buf
      ensures Valid() && markPos == old(markPos)
      ensures broken ==> r == IOFailure && pos == old(pos) && buf[..] == old(buf[..])
      ensures !broken && old(pos) == |data| ==> r == EndOfStream && pos == old(pos) && buf[..] == old(buf[..])
      ensures !broken && old(pos) < |data| ==>
                r.Count? && 1 <= r.n <= len && r.n <= chunk && pos == old(pos) + r.n
                && (r.n < len && r.n < chunk ==> pos == |data|)
                && (forall i :: 0 <= i < buf.Length ==>
                      buf[i] == if off <= i < off + r.n then data[old(pos) + i - off] else old(buf[i]))
    {
      if broken {
        return IOFailure;
      }
      if pos == |data| {
        return EndOfStream;
      }
      var n := len;
      if chunk < n {
        n := chunk;
      }
      if |data| - pos < n {
        n := |data| - pos;
      }
      var k := 0;
      while k < n
        invariant 0 <= k <= n
        invariant pos == old(pos) && markPos == old(markPos)
        invariant forall i :: 0 <= i < buf.Length ==>
                    buf[i] == if off <= i < off + k then data[pos + i - off] else old(buf[i])
      {
        buf[off + k] := data[pos + k];
        k := k + 1;
      }
      pos := pos + n;
      return Count(n);
    }

    /** mark(readlimit): remember the current position. */
    method Mark()
      requires Valid()
      modifies this
      ensures Valid() && pos == old(pos)
      ensures markSupported ==> markPos == pos
      ensures !markSupported ==> markPos == old(markPos)
    {
      if markSupported {
        markPos := pos;
      }
    }

    /** reset(): return to the mark, or throw when marks are not supported. */
    method Reset() returns (ok: bool)
      requires Valid()
      modifies this
      ensures Valid() && markPos == old(markPos)
      ensures ok == markSupported
      ensures ok ==> pos == markPos
      ensures !ok ==> pos == old(pos)
    {
      if !markSupported {
        return false;
      }
      pos := markPos;
      return true;
    }

    /** readAllBytes() / transferTo(out): every remaining byte, or an IOException. */
    method ReadAll() returns (r: Drained)
      requires Valid()
      modifies this
      ensures Valid() && markPos == old(markPos)
      ensures broken ==> r == Broken && pos == old(pos)
      ensures !broken ==> r == Bytes(old(data[pos..])) && pos == |data|
    {
      if broken {
        return Broken;
      }
      r := Bytes(data[pos..]);
      pos := |data|;
    }
  }

  /** The outcome of draining a stream. */
  datatype Drained = Bytes(bytes: seq<Byte>) | Broken

  /**
   * new BufferedInputStream(in): a stream over what `in` has left that supports
   * marks. The wrapper takes over `in`: its remaining bytes are reachable only
   * through the wrapper from then on.
   */
  method Buffer(input: InputStream) returns (b: InputStream)
    requires input.Valid()
    modifies input
    ensures fresh(b) && b.Valid()
    ensures b.data == old(input.data[input.pos..]) && b.pos == 0
    ensures b.markSupported && b.broken == input.broken
    ensures input.Valid() && input.pos == |input.data| && input.markPos == old(input.markPos)
  {
    b := new InputStream(input.data[input.pos..], true, 8192, input.broken);
    input.pos := |input.data|;
  }

  class OutputStream {
    /** Everything written so far. */
    var written: seq<Byte>
    /** Whether the sink's write throws an IOException (a closed pipe, a full disk). */
    const failing: bool

    constructor (failing: bool)
      ensures written == [] && this.failing == failing
    {
      written := [];
      this.failing := failing;
    }

    /** write(bytes): append to what the sink holds, or throw and leave it as it was. */
    method Write(bytes: seq<Byte>) returns (ok: bool)
      modifies this
      ensures ok == !failing
      ensures written == (if ok then old(written) + bytes else old(written))
    {
      if failing {
        return false;
      }
      written := written + bytes;
      ok := true;
    }
  }
}
