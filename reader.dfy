/**
 * The frame reader: one call takes one length-prefixed frame off a byte
 * stream, tells heartbeat frames from data frames by the header flag, and
 * for data frames extracts the route code and the sequence number.
 *
 * `ReadFrame` is the specification of one call on the unread bytes of the
 * stream; `Reader.ReadMessage` is the call itself, over a stream object and
 * a pool of 4-byte scratch buffers. `ReadFrameAsWritten` is the call as
 * the code is written, including the two inputs on which it indexes past
 * the end of its frame buffer (see the two lemmas next to it).
 */
module FrameReader {
  import opened Bytes
  import opened Wire
  import opened Pooling
  import opened Unbind

  /** What one call returns, and how many stream bytes it consumed. */
  datatype ReadResult = ReadResult(
    isHeartbeat: bool, route: int8, seqNum: uint64, data: seq<byte>, err: Option<Error>, consumed: nat)

  function Zeros(n: nat): (z: seq<byte>)
    ensures |z| == n && forall i :: 0 <= i < n ==> z[i] == 0
  {
    seq(n, _ => 0)
  }

  /**
   * The error of `io.ReadFull` asked for n bytes when avail are left:
   * none if they suffice, EOF if nothing was read, ErrUnexpectedEOF if
   * only part was.
   */
  function ReadFullError(avail: nat, n: nat): (e: Option<Error>)
    ensures e == None <==> avail >= n
    ensures e != None ==> e == Some(if avail == 0 then ErrEOF else ErrUnexpectedEOF)
  {
    if avail >= n then None
    else if avail == 0 then Some(ErrEOF)
    else Some(ErrUnexpectedEOF)
  }

  /** A call that ends with err before a frame buffer exists. */
  function Stopped(err: Error, consumed: nat): (r: ReadResult)
  {
    ReadResult(false, 0, 0, [], Some(err), consumed)
  }

  /**
   * One `ReadMessage` call on the unread input. A short size prefix gives
   * the stream's error, a zero size gives ErrInvalidMessage; otherwise the
   * frame buffer holds the prefix and the next `size` bytes (zero-padded
   * where the stream ran short). A data frame too short to hold its route
   * and sequence is rejected with ErrInvalidMessage.
   */
  function ReadFrame(input: seq<byte>, heartbeatBit: uint8): (r: ReadResult)
    ensures r.consumed <= |input|
    ensures r.err == None ==> r.data == input[..r.consumed]
  {
    if |input| < SizeBytes then Stopped(ReadFullError(|input|, SizeBytes).value, |input|)
    else
      var size := Uint32BE(input[..SizeBytes]);
      if size == 0 then Stopped(ErrInvalidMessage, SizeBytes)
      else if |input| < SizeBytes + size then
        ReadResult(false, 0, 0, input + Zeros(SizeBytes + size - |input|),
                   ReadFullError(|input| - SizeBytes, size), |input|)
      else Classify(input[..SizeBytes + size], heartbeatBit)
  }

  /**
   * The last step of a call, on a complete frame: a heartbeat frame
   * carries no route or sequence; a data frame has them at offsets 5 and
   * 6, and is malformed if it is too short to hold them.
   */
  function Classify(data: seq<byte>, heartbeatBit: uint8): (r: ReadResult)
    requires |data| > HeaderOffset
    ensures r.data == data && r.consumed == |data|
    ensures r.isHeartbeat <==> HasFlag(data[HeaderOffset], heartbeatBit)
    ensures r.err == None <==> r.isHeartbeat || SeqOffset + SeqBytes <= |data|
  {
    if HasFlag(data[HeaderOffset], heartbeatBit) then ReadResult(true, 0, 0, data, None, |data|)
    else if |data| < SeqOffset + SeqBytes then ReadResult(false, 0, 0, data, Some(ErrInvalidMessage), |data|)
    else
      ReadResult(false, Int8Of(data[RouteOffset]), Uint64BE(data[SeqOffset..SeqOffset + SeqBytes]),
                 data, None, |data|)
  }

  /** A prefix cut short by the end of the stream is the stream's error, nothing else. */
  lemma ReadFrameShortPrefix(input: seq<byte>, heartbeatBit: uint8)
    requires |input| < SizeBytes
    ensures var r := ReadFrame(input, heartbeatBit);
      && r.err == Some(if input == [] then ErrEOF else ErrUnexpectedEOF)
      && r.data == [] && r.consumed == |input|
  {
  }

  /** A zero size is malformed; no payload byte is consumed. */
  lemma ReadFrameZeroSize(input: seq<byte>, heartbeatBit: uint8)
    requires |input| >= SizeBytes && DecodeUint(input[..SizeBytes]) == 0
    ensures var r := ReadFrame(input, heartbeatBit);
      r.err == Some(ErrInvalidMessage) && r.data == [] && r.consumed == SizeBytes
  {
  }

  /**
   * Exactly when a call succeeds, and what it then returns: the prefix and
   * the `size` bytes after it, all of them consumed, classified by the
   * heartbeat flag, with route and sequence read from their offsets.
   */
  lemma ReadFrameAccepts(input: seq<byte>, heartbeatBit: uint8)
    ensures var r := ReadFrame(input, heartbeatBit);
      r.err == None <==>
        && |input| >= SizeBytes
        && var size := DecodeUint(input[..SizeBytes]);
        && 0 < size && SizeBytes + size <= |input|
        && (HasFlag(input[HeaderOffset], heartbeatBit) || SeqOffset + SeqBytes <= SizeBytes + size)
    ensures var r := ReadFrame(input, heartbeatBit);
      r.err == None ==>
        && |input| >= SizeBytes
        && |r.data| == SizeBytes + DecodeUint(input[..SizeBytes])
        && r.data == input[..|r.data|] && r.consumed == |r.data|
        && (r.isHeartbeat <==> HasFlag(r.data[HeaderOffset], heartbeatBit))
        && (r.isHeartbeat ==> r.route == 0 && r.seqNum == 0)
        && (!r.isHeartbeat ==>
              && |r.data| >= SeqOffset + SeqBytes
              && r.route == Int8Of(r.data[RouteOffset])
              && r.seqNum == DecodeUint(r.data[SeqOffset..SeqOffset + SeqBytes]))
  {
  }

  /**
   * A payload cut short by the end of the stream: the stream's error, all
   * remaining bytes consumed, and the frame buffer holding what arrived.
   */
  lemma ReadFrameShortPayload(input: seq<byte>, heartbeatBit: uint8)
    requires |input| >= SizeBytes
    requires var size := DecodeUint(input[..SizeBytes]); 0 < size && |input| < SizeBytes + size
    ensures var r := ReadFrame(input, heartbeatBit);
      && r.err == Some(if |input| == SizeBytes then ErrEOF else ErrUnexpectedEOF)
      && r.consumed == |input|
      && |r.data| == SizeBytes + DecodeUint(input[..SizeBytes])
      && r.data[..|input|] == input
  {
  }

  /**
   * A stream that begins with a packed Unbind request reads back as that
   * very frame: a data frame with the request route and the same sequence,
   * provided the data flag does not include the heartbeat flag.
   */
  lemma ReadPackedRequest(c: Codes, seqNum: uint64, uid: int64, rest: seq<byte>)
    requires !HasFlag(c.dataBit, c.heartbeatBit)
    ensures var f := ReqFrame(c, seqNum, uid);
      ReadFrame(f + rest, c.heartbeatBit) == ReadResult(false, c.unbindReq, seqNum, f, None, UnbindReqBytes)
  {
    var f := ReqFrame(c, seqNum, uid);
    ReqFrameLayout(c, seqNum, uid);
    var input := f + rest;
    assert input[..SizeBytes] == f[..SizeBytes];
    assert input[..UnbindReqBytes] == f;
  }

  /** The same for a packed Unbind response, with the response route. */
  lemma ReadPackedResponse(c: Codes, seqNum: uint64, code: int16, rest: seq<byte>)
    requires !HasFlag(c.dataBit, c.heartbeatBit)
    ensures var f := ResFrame(c, seqNum, code);
      ReadFrame(f + rest, c.heartbeatBit) == ReadResult(false, c.unbindRes, seqNum, f, None, UnbindResBytes)
  {
    var f := ResFrame(c, seqNum, code);
    ResFrameLayout(c, seqNum, code);
    var input := f + rest;
    assert input[..SizeBytes] == f[..SizeBytes];
    assert input[..UnbindResBytes] == f;
  }

  // -------------------------------------------------- the code as written

  /** A call either returns or stops the program with an index out of range. */
  datatype Outcome = Returned(result: ReadResult) | Panicked

  /**
   * `ReadMessage` exactly as written: the frame length `4 + size` is
   * computed in uint32 and wraps, and a data frame is indexed up to offset
   * 14 whatever its size.
   */
  function ReadFrameAsWritten(input: seq<byte>, heartbeatBit: uint8): (o: Outcome)
    ensures o.Returned? ==> o.result.consumed <= |input|
    ensures o.Panicked? ==> SizeBytes <= |input|
  {
    if |input| < SizeBytes then Returned(Stopped(ReadFullError(|input|, SizeBytes).value, |input|))
    else
      var size := Uint32BE(input[..SizeBytes]);
      if size == 0 then Returned(Stopped(ErrInvalidMessage, SizeBytes))
      else
        var n := (SizeBytes + size) % Pow256(4);
        if n < SizeBytes then Panicked
        else if |input| < n then
          Returned(ReadResult(false, 0, 0, input + Zeros(n - |input|), ReadFullError(|input| - SizeBytes, n - SizeBytes), |input|))
        else
          var data := input[..n];
          if n <= HeaderOffset then Panicked
          else if HasFlag(data[HeaderOffset], heartbeatBit) then Returned(ReadResult(true, 0, 0, data, None, n))
          else if n < SeqOffset + SeqBytes then Panicked
          else
            Returned(ReadResult(false, Int8Of(data[RouteOffset]), Uint64BE(data[SeqOffset..SeqOffset + SeqBytes]),
                                data, None, n))
  }

  /**
   * A five-byte data frame (size 1, header without the heartbeat flag)
   * passes the size check and then indexes the route byte past the end of
   * the frame buffer; the corrected reader rejects it as malformed.
   */
  lemma ShortDataFramePanics(c: Codes)
    requires !HasFlag(c.dataBit, c.heartbeatBit)
    ensures ReadFrameAsWritten([0, 0, 0, 1, c.dataBit], c.heartbeatBit) == Panicked
    ensures ReadFrame([0, 0, 0, 1, c.dataBit], c.heartbeatBit).err == Some(ErrInvalidMessage)
  {
    var input: seq<byte> := [0, 0, 0, 1, c.dataBit];
    assert input[..4] == [0, 0, 0, 1];
    assert DecodeUint([0, 0, 0, 1]) == 1 by {
      assert [0, 0, 0, 1][..3] == [0, 0, 0];
      assert [0, 0, 0][..2] == [0, 0];
      assert [0, 0][..1] == [0];
      assert [0][..0] == [];
    }
    Pow256Widths();
  }

  /**
   * A size of 0xFFFFFFFC makes `4 + size` wrap to 0 in uint32, and copying
   * the prefix into the empty frame buffer slices past its end; the
   * corrected reader asks the stream for all 2^32 - 4 bytes instead.
   */
  lemma WrappedSizePanics(rest: seq<byte>, heartbeatBit: uint8)
    requires |rest| < 0xFFFF_FFFC
    ensures ReadFrameAsWritten([0xFF, 0xFF, 0xFF, 0xFC] + rest, heartbeatBit) == Panicked
    ensures var r := ReadFrame([0xFF, 0xFF, 0xFF, 0xFC] + rest, heartbeatBit);
      r.err == Some(if rest == [] then ErrEOF else ErrUnexpectedEOF) && r.consumed == 4 + |rest|
  {
    var input := [0xFF, 0xFF, 0xFF, 0xFC] + rest;
    assert input[..4] == [0xFF, 0xFF, 0xFF, 0xFC];
    assert DecodeUint([0xFF, 0xFF, 0xFF, 0xFC]) == 0xFFFF_FFFC by {
      assert [0xFF, 0xFF, 0xFF, 0xFC][..3] == [0xFF, 0xFF, 0xFF];
      assert [0xFF, 0xFF, 0xFF][..2] == [0xFF, 0xFF];
      assert [0xFF, 0xFF][..1] == [0xFF];
      assert [0xFF][..0] == [];
    }
    Pow256Widths();
  }

  /**
   * Wherever the code as written returns, the corrected reader returns the
   * same; and the code as written panics on exactly two kinds of input: a
   * size whose `4 + size` wraps in uint32, and a complete data frame of
   * fewer than 14 bytes.
   */
  lemma AsWrittenPanicsExactly(input: seq<byte>, heartbeatBit: uint8)
    ensures ReadFrameAsWritten(input, heartbeatBit).Returned? ==>
      ReadFrameAsWritten(input, heartbeatBit).result == ReadFrame(input, heartbeatBit)
    ensures ReadFrameAsWritten(input, heartbeatBit).Panicked? <==>
      && |input| >= SizeBytes
      && var size := DecodeUint(input[..SizeBytes]);
      || size >= 0x1_0000_0000 - SizeBytes
      || (0 < size && SizeBytes + size <= |input| && SizeBytes + size < SeqOffset + SeqBytes
          && !HasFlag(input[HeaderOffset], heartbeatBit))
  {
    Pow256Widths();
    if |input| >= SizeBytes {
      var size := Uint32BE(input[..SizeBytes]);
      if size != 0 && size < 0x1_0000_0000 - SizeBytes {
        assert (SizeBytes + size) % Pow256(4) == SizeBytes + size;
      }
    }
  }

  // ------------------------------------------------------ stream and reader

  /** An input stream: its bytes and how many of them have been read. */
  class Stream {
    const content: seq<byte>
    var pos: nat

    ghost predicate Valid()
      reads this
    {
      pos <= |content|
    }

    /** The bytes not yet read. */
    function Unread(): seq<byte>
      reads this
      requires Valid()
    {
      content[pos..]
    }

    constructor (content: seq<byte>)
      ensures Valid() && this.content == content && pos == 0
    {
      this.content := content;
      pos := 0;
    }

    /**
     * `io.ReadFull(stream, a[from:])`: copies as many of the wanted bytes
     * as the stream still has into a, consumes them, and reports EOF or
     * ErrUnexpectedEOF when there were fewer than wanted.
     */
    method ReadFull(a: array<byte>, from: nat) returns (err: Option<Error>)
      requires Valid() && from <= a.Length
      modifies this, a
      ensures Valid()
      ensures var n, avail := a.Length - from, |old(Unread())|;
        var k := if avail < n then avail else n;
        && pos == old(pos) + k
        && a[..from] == old(a[..from])
        && a[from..from + k] == old(Unread())[..k]
        && a[from + k..] == old(a[from + k..])
        && err == ReadFullError(avail, n)
    {
      var n, avail := a.Length - from, |content| - pos;
      var k := if avail < n then avail else n;
      forall i | 0 <= i < k {
        a[from + i] := content[pos + i];
      }
      pos := pos + k;
      err := ReadFullError(avail, n);
    }
  }

  class Reader {
    const heartbeatBit: uint8
    const sizePool: Pool<array<byte>>

    /** The scratch pool holds distinct 4-byte buffers. */
    ghost predicate Valid()
      reads this, sizePool
    {
      sizePool.Distinct() && forall b :: b in sizePool.free ==> b.Length == SizeBytes
    }

    constructor (heartbeatBit: uint8)
      ensures Valid() && this.heartbeatBit == heartbeatBit
      ensures fresh(sizePool) && sizePool.free == []
    {
      this.heartbeatBit := heartbeatBit;
      sizePool := new Pool<array<byte>>();
    }

    /**
     * `ReadMessage`: one frame off the stream, as `ReadFrame` specifies.
     * The scratch buffer for the size prefix is taken from the pool once
     * and put back once on every path; the frame buffer is new.
     */
    method ReadMessage(stream: Stream)
      returns (isHeartbeat: bool, route: int8, seqNum: uint64, data: array?<byte>, err: Option<Error>)
      requires Valid() && stream.Valid()
      modifies sizePool, sizePool.free, stream
      ensures Valid() && stream.Valid()
      ensures var r := ReadFrame(old(stream.Unread()), heartbeatBit);
        && isHeartbeat == r.isHeartbeat && route == r.route && seqNum == r.seqNum && err == r.err
        && stream.pos == old(stream.pos) + r.consumed
        && (if r.data == [] then data == null else data != null && fresh(data) && data[..] == r.data)
      ensures sizePool.gets == old(sizePool.gets) + 1 && sizePool.puts == old(sizePool.puts) + 1
      ensures var n := |old(sizePool.free)|;
        || sizePool.free == old(sizePool.free)
        || (|sizePool.free| == n + 1 && sizePool.free[..n] == old(sizePool.free) && fresh(sizePool.free[n]))
      ensures data != null ==> data !in sizePool.free
    {
      isHeartbeat, route, seqNum, data := false, 0, 0, null;
      ghost var input := stream.Unread();
      var buf;
      buf, err := ReadPrefix(stream);
      if err != None {
        assert ReadFrame(input, heartbeatBit) == Stopped(err.value, |input|);
        sizePool.Put(buf);
        return;
      }
      assert buf[..] == input[..SizeBytes];

      var size := Uint32BE(buf[..]);
      if size == 0 {
        assert ReadFrame(input, heartbeatBit) == Stopped(ErrInvalidMessage, SizeBytes);
        sizePool.Put(buf);
        err := Some(ErrInvalidMessage);
        return;
      }

      isHeartbeat, route, seqNum, data, err := ReadBody(stream, buf, size, input);
    }

    /**
     * The rest of a call once a non-zero size has been read: the frame
     * buffer is allocated and takes the prefix, the scratch buffer goes
     * back to the pool, and the payload is read and classified.
     */
    method ReadBody(stream: Stream, buf: array<byte>, size: nat, ghost input: seq<byte>)
      returns (isHeartbeat: bool, route: int8, seqNum: uint64, data: array<byte>, err: Option<Error>)
      requires Valid() && stream.Valid()
      requires buf.Length == SizeBytes && buf !in sizePool.free
      requires SizeBytes <= |input| && buf[..] == input[..SizeBytes] && stream.Unread() == input[SizeBytes..]
      requires size == DecodeUint(buf[..]) && size > 0
      modifies sizePool, stream
      ensures Valid() && stream.Valid()
      ensures var r := ReadFrame(input, heartbeatBit);
        && isHeartbeat == r.isHeartbeat && route == r.route && seqNum == r.seqNum && err == r.err
        && stream.pos == old(stream.pos) + r.consumed - SizeBytes
        && fresh(data) && data[..] == r.data
      ensures sizePool.gets == old(sizePool.gets) && sizePool.puts == old(sizePool.puts) + 1
      ensures sizePool.free == old(sizePool.free) + [buf] && data !in sizePool.free
    {
      isHeartbeat, route, seqNum := false, 0, 0;
      data := NewFrame(buf, size);
      sizePool.Put(buf);
      assert data[..SizeBytes] == input[..SizeBytes];

      err := ReadPayload(stream, data, input);
      if err != None {
        assert ReadFrame(input, heartbeatBit) == ReadResult(false, 0, 0, data[..], err, |input|);
        return;
      }
      assert ReadFrame(input, heartbeatBit) == Classify(data[..], heartbeatBit);
      isHeartbeat, route, seqNum, err := ClassifyFrame(data);
    }

    /**
     * Takes a scratch buffer from the pool (or a new one) and reads the
     * size prefix into it; the caller puts the buffer back.
     */
    method ReadPrefix(stream: Stream) returns (buf: array<byte>, err: Option<Error>)
      requires Valid() && stream.Valid()
      modifies sizePool, sizePool.free, stream
      ensures Valid() && stream.Valid()
      ensures buf.Length == SizeBytes && buf !in sizePool.free
      ensures sizePool.gets == old(sizePool.gets) + 1 && sizePool.puts == old(sizePool.puts)
      ensures sizePool.free + [buf] == old(sizePool.free) || (fresh(buf) && sizePool.free == old(sizePool.free))
      ensures var input := old(stream.Unread());
        && err == ReadFullError(|input|, SizeBytes)
        && (err == None ==> stream.pos == old(stream.pos) + SizeBytes && buf[..] == input[..SizeBytes])
        && (err != None ==> stream.pos == old(stream.pos) + |input| && |input| < SizeBytes)
    {
      var got := sizePool.Get();
      if got.Some? {
        buf := got.value;
      } else {
        buf := new byte[SizeBytes];
      }
      err := stream.ReadFull(buf, 0);
    }

    /**
     * Reads the payload into the frame buffer after its prefix. The frame
     * buffer ends up holding the whole frame, or, when the stream runs
     * short, the rest of the input followed by zeros.
     */
    static method ReadPayload(stream: Stream, data: array<byte>, ghost input: seq<byte>) returns (err: Option<Error>)
      requires stream.Valid() && SizeBytes <= |input| && SizeBytes < data.Length
      requires stream.Unread() == input[SizeBytes..]
      requires data[..] == input[..SizeBytes] + Zeros(data.Length - SizeBytes)
      modifies stream, data
      ensures stream.Valid()
      ensures err == ReadFullError(|input| - SizeBytes, data.Length - SizeBytes)
      ensures err != None ==>
        stream.pos == old(stream.pos) + |input| - SizeBytes && data[..] == input + Zeros(data.Length - |input|)
      ensures err == None ==>
        stream.pos == old(stream.pos) + data.Length - SizeBytes && data[..] == input[..data.Length]
    {
      ghost var payload := stream.Unread();
      err := stream.ReadFull(data, SizeBytes);
      if err != None {
        assert data[..] == data[..SizeBytes] + data[SizeBytes..|input|] + data[|input|..];
      } else {
        assert data[SizeBytes..] == payload[..data.Length - SizeBytes];
        assert data[..] == data[..SizeBytes] + data[SizeBytes..];
      }
    }

    /** A zeroed frame buffer of `4 + size` bytes with the size prefix copied in. */
    static method NewFrame(prefix: array<byte>, size: nat) returns (data: array<byte>)
      requires prefix.Length == SizeBytes
      ensures fresh(data) && data[..] == prefix[..] + Zeros(size)
    {
      data := new byte[SizeBytes + size](_ => 0);
      forall i | 0 <= i < SizeBytes {
        data[i] := prefix[i];
      }
      assert data[..] == prefix[..] + Zeros(size) by {
        assert data[..SizeBytes] == prefix[..];
        assert data[..] == data[..SizeBytes] + data[SizeBytes..];
      }
    }

    /** Header, route and sequence of a complete frame, read in place. */
    method ClassifyFrame(data: array<byte>)
      returns (isHeartbeat: bool, route: int8, seqNum: uint64, err: Option<Error>)
      requires data.Length > HeaderOffset
      ensures ReadResult(isHeartbeat, route, seqNum, data[..], err, data.Length) == Classify(data[..], heartbeatBit)
    {
      route, seqNum, err := 0, 0, None;
      var header := data[HeaderOffset];
      isHeartbeat := HasFlag(header, heartbeatBit);
      if !isHeartbeat {
        if data.Length < SeqOffset + SeqBytes {
          err := Some(ErrInvalidMessage);
          return;
        }
        route := Int8Of(data[RouteOffset]);
        seqNum := Uint64BE(data[SeqOffset..SeqOffset + SeqBytes]);
      }
    }
  }
}
