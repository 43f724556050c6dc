/**
 * The Unbind packer: fixed-layout request and response frames, written
 * into pooled buffers and decoded by fixed-offset extraction.
 *
 *   request:  size(int32) | header(uint8) | route(int8) | seq(uint64) | uid(int64)   22 bytes
 *   response: size(int32) | header(uint8) | route(int8) | seq(uint64) | code(int16)  16 bytes
 *
 * All multi-byte fields are big-endian; `size` counts the bytes after itself.
 */
module Unbind {
  import opened Bytes
  import opened Wire
  import opened Pooling

  /**
   * Which `binary.Write` into a pooled buffer the underlying sink rejects,
   * counting the writes of one pack call from 0. The sink is code outside
   * this model, so the outcome of each write is an input here.
   */
  datatype Fault = NoFault | FailOnWrite(index: nat)
  {
    predicate Rejects(i: nat)
    {
      FailOnWrite? && index == i
    }

    /** None of the first n writes is rejected. */
    predicate Spares(n: nat)
    {
      !(FailOnWrite? && index < n)
    }
  }

  // ---------------------------------------------------------------- layouts

  /** The request frame as the stream writer (`PackReq`) lays it out. */
  function ReqFrame(c: Codes, seqNum: uint64, uid: int64): (f: seq<byte>)
    ensures |f| == UnbindReqBytes
  {
    Int32Fits(UnbindReqBytes - SizeBytes);
    Int8Fits(c.unbindReq);
    Int64Fits(uid);
    EncodeInt(UnbindReqBytes - SizeBytes, SizeBytes)
      + EncodeUint(c.dataBit, HeaderBytes)
      + EncodeInt(c.unbindReq, RouteBytes)
      + EncodeUint(seqNum, SeqBytes)
      + EncodeInt(uid, UidBytes)
  }

  /** The request frame as the typed writer (`PackReq2`) lays it out. */
  function TypedReqFrame(c: Codes, seqNum: uint64, uid: int64): (f: seq<byte>)
    ensures |f| == UnbindReqBytes
  {
    PutInt(UnbindReqBytes - SizeBytes, SizeBytes)
      + PutUint(c.dataBit, HeaderBytes)
      + PutInt(c.unbindReq, RouteBytes)
      + PutUint(seqNum, SeqBytes)
      + PutInt(uid, UidBytes)
  }

  /** The response frame as `PackRes` lays it out. */
  function ResFrame(c: Codes, seqNum: uint64, code: int16): (f: seq<byte>)
    ensures |f| == UnbindResBytes
  {
    Int32Fits(UnbindResBytes - SizeBytes);
    Int8Fits(c.unbindRes);
    Int16Fits(code);
    EncodeInt(UnbindResBytes - SizeBytes, SizeBytes)
      + EncodeUint(c.dataBit, HeaderBytes)
      + EncodeInt(c.unbindRes, RouteBytes)
      + EncodeUint(seqNum, SeqBytes)
      + EncodeInt(code, CodeBytes)
  }

  /** Where the five fields of a data frame sit in their concatenation. */
  lemma FrameSlices(size: seq<byte>, header: seq<byte>, route: seq<byte>, sq: seq<byte>, tail: seq<byte>)
    requires |size| == SizeBytes && |header| == HeaderBytes && |route| == RouteBytes && |sq| == SeqBytes
    ensures var f := size + header + route + sq + tail;
      && |f| == SeqOffset + SeqBytes + |tail|
      && f[..SizeBytes] == size && f[HeaderOffset] == header[0] && [f[RouteOffset]] == route
      && f[SeqOffset..SeqOffset + SeqBytes] == sq && f[SeqOffset + SeqBytes..] == tail
  {
    var f := size + header + route + sq + tail;
    assert f[..4] == size;
    assert f[6..14] == sq;
    assert f[14..] == tail;
  }

  /** Every field of a request frame reads back from its offset. */
  lemma ReqFrameLayout(c: Codes, seqNum: uint64, uid: int64)
    ensures var f := ReqFrame(c, seqNum, uid);
      && |f| == UnbindReqBytes == 22
      && DecodeUint(f[..SizeBytes]) == UnbindReqBytes - SizeBytes
      && f[HeaderOffset] == c.dataBit
      && Int8Of(f[RouteOffset]) == c.unbindReq
      && f[SeqOffset..SeqOffset + SeqBytes] == EncodeUint(seqNum, SeqBytes)
      && DecodeUint(f[SeqOffset..SeqOffset + SeqBytes]) == seqNum
      && f[SeqOffset + SeqBytes..] == EncodeInt(uid, UidBytes)
      && DecodeInt(f[SeqOffset + SeqBytes..]) == uid
  {
    Int32Fits(18);
    Int8Fits(c.unbindReq);
    Int64Fits(uid);
    Uint8Fits(c.dataBit);
    Uint64Fits(seqNum);
    var header := EncodeUint(c.dataBit, 1);
    FrameSlices(EncodeInt(18, 4), header, EncodeInt(c.unbindReq, 1), EncodeUint(seqNum, 8), EncodeInt(uid, 8));
    DecodeEncodeInt(18, 4);
    DecodeEncodeInt(c.unbindReq, 1);
    DecodeEncodeInt(uid, 8);
    DecodeEncodeUint(seqNum, 8);
    DecodeEncodeUint(c.dataBit, 1);
    assert header == [header[0]];
  }

  /** Every field of a response frame reads back from its offset. */
  lemma ResFrameLayout(c: Codes, seqNum: uint64, code: int16)
    ensures var f := ResFrame(c, seqNum, code);
      && |f| == UnbindResBytes == 16
      && DecodeUint(f[..SizeBytes]) == UnbindResBytes - SizeBytes
      && f[HeaderOffset] == c.dataBit
      && Int8Of(f[RouteOffset]) == c.unbindRes
      && DecodeUint(f[SeqOffset..SeqOffset + SeqBytes]) == seqNum
      && f[|f| - CodeBytes..] == EncodeInt(code, CodeBytes)
      && DecodeInt(f[|f| - CodeBytes..]) == code
  {
    Int32Fits(12);
    Int8Fits(c.unbindRes);
    Int16Fits(code);
    Uint8Fits(c.dataBit);
    Uint64Fits(seqNum);
    var header := EncodeUint(c.dataBit, 1);
    FrameSlices(EncodeInt(12, 4), header, EncodeInt(c.unbindRes, 1), EncodeUint(seqNum, 8), EncodeInt(code, 2));
    DecodeEncodeInt(12, 4);
    DecodeEncodeInt(c.unbindRes, 1);
    DecodeEncodeInt(code, 2);
    DecodeEncodeUint(seqNum, 8);
    DecodeEncodeUint(c.dataBit, 1);
    assert header == [header[0]];
  }

  /** The two request encoders produce the same bytes for every input. */
  lemma {:induction false} TypedReqFrameIsReqFrame(c: Codes, seqNum: uint64, uid: int64)
    ensures TypedReqFrame(c, seqNum, uid) == ReqFrame(c, seqNum, uid)
  {
    Int32Fits(18);
    Int8Fits(c.unbindReq);
    Int64Fits(uid);
    PutIntIsEncodeInt(18, 4);
    PutUintIsEncodeUint(c.dataBit, 1);
    PutIntIsEncodeInt(c.unbindReq, 1);
    PutUintIsEncodeUint(seqNum, 8);
    PutIntIsEncodeInt(uid, 8);
  }

  // --------------------------------------------------------------- decoding

  /**
   * `UnpackReq`: rejects any input that is not exactly one request frame,
   * then reads seq and uid at their offsets after size, header and route.
   */
  function UnpackReq(data: seq<byte>): (r: Result<(uint64, int64)>)
    ensures r.Ok? <==> |data| == UnbindReqBytes
    ensures r.Err? ==> r.error == ErrInvalidMessage
  {
    if |data| != UnbindReqBytes then Err(ErrInvalidMessage)
    else
      var off := SizeBytes + HeaderBytes + RouteBytes;
      Ok((Uint64BE(data[off..off + SeqBytes]), Int64BE(data[off + SeqBytes..off + SeqBytes + UidBytes])))
  }

  /**
   * `UnpackRes`: rejects any input that is not exactly one response frame,
   * then reads the code from the last two bytes, seeking from the end.
   */
  function UnpackRes(data: seq<byte>): (r: Result<int16>)
    ensures r.Ok? <==> |data| == UnbindResBytes
    ensures r.Err? ==> r.error == ErrInvalidMessage
  {
    if |data| != UnbindResBytes then Err(ErrInvalidMessage)
    else Ok(Int16BE(data[|data| - CodeBytes..]))
  }

  lemma UnpackReqRoundTrip(c: Codes, seqNum: uint64, uid: int64)
    ensures UnpackReq(ReqFrame(c, seqNum, uid)) == Ok((seqNum, uid))
  {
    var f := ReqFrame(c, seqNum, uid);
    ReqFrameLayout(c, seqNum, uid);
    assert f[14..22] == f[14..];
  }

  lemma UnpackResRoundTrip(c: Codes, seqNum: uint64, code: int16)
    ensures UnpackRes(ResFrame(c, seqNum, code)) == Ok(code)
  {
    ResFrameLayout(c, seqNum, code);
  }

  /**
   * The converse of the round trip: whatever a request decodes to, its
   * bytes from offset 6 on are exactly the encoding of that seq and uid,
   * whatever its size, header and route bytes hold.
   */
  lemma UnpackReqExact(c: Codes, data: seq<byte>, seqNum: uint64, uid: int64)
    requires UnpackReq(data) == Ok((seqNum, uid))
    ensures data[SeqOffset..] == ReqFrame(c, seqNum, uid)[SeqOffset..]
  {
    var s, u := data[6..14], data[14..22];
    assert EncodeUint(seqNum, 8) == s && EncodeInt(uid, 8) == u;
    var f := ReqFrame(c, seqNum, uid);
    ReqFrameLayout(c, seqNum, uid);
    assert data[6..] == s + u;
    assert f[6..] == f[6..14] + f[14..];
  }

  /** The converse for responses: only the last two bytes decide the code. */
  lemma UnpackResExact(data: seq<byte>, code: int16)
    requires UnpackRes(data) == Ok(code)
    ensures FitsSigned(code, CodeBytes) && data[|data| - CodeBytes..] == EncodeInt(code, CodeBytes)
  {
  }

  /** Request decoding never looks at the size, header or route bytes. */
  lemma UnpackReqIgnoresPrefix(a: seq<byte>, b: seq<byte>)
    requires |a| == |b| >= SeqOffset && a[SeqOffset..] == b[SeqOffset..]
    ensures UnpackReq(a) == UnpackReq(b)
  {
    if |a| == UnbindReqBytes {
      assert a[6..14] == a[6..][..8] == b[6..][..8] == b[6..14];
      assert a[14..22] == a[6..][8..] == b[6..][8..] == b[14..22];
    }
  }

  /** Response decoding never looks at anything but the last two bytes. */
  lemma UnpackResIgnoresAllButCode(a: seq<byte>, b: seq<byte>)
    requires |a| == |b| >= CodeBytes && a[|a| - CodeBytes..] == b[|b| - CodeBytes..]
    ensures UnpackRes(a) == UnpackRes(b)
  {
  }

  // ------------------------------------------------------- pooled buffers

  /**
   * A pooled `Buffer`: an append-only byte sink of fixed capacity that
   * knows the pool it came from. A write that does not fit, or that the
   * sink rejects, fails and leaves the bytes as they were.
   */
  class Buffer {
    const pool: Pool<Buffer>
    const capacity: nat
    var bytes: seq<byte>

    constructor (pool: Pool<Buffer>, capacity: nat)
      ensures this.pool == pool && this.capacity == capacity && bytes == []
    {
      this.pool := pool;
      this.capacity := capacity;
      bytes := [];
    }

    /** `binary.Write(buf, binary.BigEndian, v)` with v already encoded as s. */
    method Write(s: seq<byte>, accepted: bool) returns (err: Option<Error>)
      modifies this
      ensures err == None <==> accepted && |old(bytes)| + |s| <= capacity
      ensures err != None ==> err == Some(ErrWrite)
      ensures bytes == if err == None then old(bytes) + s else old(bytes)
    {
      if accepted && |bytes| + |s| <= capacity {
        bytes := bytes + s;
        err := None;
      } else {
        err := Some(ErrWrite);
      }
    }

    /** Empties the buffer and puts it back into the pool it came from. */
    method Recycle()
      requires pool.Distinct() && this !in pool.free
      modifies this, pool
      ensures bytes == []
      ensures pool.Distinct() && pool.free == old(pool.free) + [this]
      ensures pool.puts == old(pool.puts) + 1 && pool.gets == old(pool.gets)
    {
      bytes := [];
      pool.Put(this);
    }
  }

  /**
   * A pooled `Writer`: a fixed-size byte array filled from the front by
   * typed, big-endian write methods. These have no error result, so each
   * requires room for its field.
   */
  class Writer {
    const pool: Pool<Writer>
    const buf: array<byte>
    var off: nat

    ghost predicate Valid()
      reads this
    {
      off <= buf.Length
    }

    /** The bytes written so far. */
    ghost function Contents(): seq<byte>
      reads this, buf
      requires Valid()
    {
      buf[..off]
    }

    constructor (pool: Pool<Writer>, capacity: nat)
      ensures Valid() && this.pool == pool && buf.Length == capacity && off == 0
      ensures fresh(buf)
    {
      this.pool := pool;
      buf := new byte[capacity];
      off := 0;
    }

    /** Copies s into the array at the write offset and moves past it. */
    method Put(s: seq<byte>)
      requires Valid() && off + |s| <= buf.Length
      modifies this, buf
      ensures Valid() && Contents() == old(Contents()) + s
    {
      forall i | 0 <= i < |s| {
        buf[off + i] := s[i];
      }
      off := off + |s|;
    }

    /** Rewinds the writer and puts it back into the pool it came from. */
    method Recycle()
      requires Valid() && pool.Distinct() && this !in pool.free
      modifies this, pool
      ensures Valid() && Contents() == []
      ensures pool.Distinct() && pool.free == old(pool.free) + [this]
      ensures pool.puts == old(pool.puts) + 1 && pool.gets == old(pool.gets)
    {
      off := 0;
      pool.Put(this);
    }

    method WriteInt32s(v: int32)
      requires Valid() && off + 4 <= buf.Length
      modifies this, buf
      ensures Valid() && Contents() == old(Contents()) + PutInt(v, 4)
    {
      Put(PutInt(v, 4));
    }

    method WriteUint8s(v: uint8)
      requires Valid() && off + 1 <= buf.Length
      modifies this, buf
      ensures Valid() && Contents() == old(Contents()) + PutUint(v, 1)
    {
      Put(PutUint(v, 1));
    }

    method WriteInt8s(v: int8)
      requires Valid() && off + 1 <= buf.Length
      modifies this, buf
      ensures Valid() && Contents() == old(Contents()) + PutInt(v, 1)
    {
      Put(PutInt(v, 1));
    }

    method WriteUint64s(v: uint64)
      requires Valid() && off + 8 <= buf.Length
      modifies this, buf
      ensures Valid() && Contents() == old(Contents()) + PutUint(v, 8)
    {
      Put(PutUint(v, 8));
    }

    method WriteInt64s(v: int64)
      requires Valid() && off + 8 <= buf.Length
      modifies this, buf
      ensures Valid() && Contents() == old(Contents()) + PutInt(v, 8)
    {
      Put(PutInt(v, 8));
    }
  }

  /** Every free buffer of p is empty, belongs to p and has capacity cap. */
  ghost predicate BufferPoolOk(p: Pool<Buffer>, cap: nat)
    reads p, p.free
  {
    p.Distinct() &&
    forall b :: b in p.free ==> b.pool == p && b.capacity == cap && b.bytes == []
  }

  /** Every free writer of p is rewound, belongs to p and has cap bytes. */
  ghost predicate WriterPoolOk(p: Pool<Writer>, cap: nat)
    reads p, p.free
  {
    p.Distinct() &&
    forall w :: w in p.free ==> w.pool == p && w.buf.Length == cap && w.off == 0
  }

  // ----------------------------------------------------------------- packer

  class UnbindPacker {
    const codes: Codes
    const reqPool: Pool<Buffer>
    const resPool: Pool<Buffer>
    const reqPool2: Pool<Writer>

    ghost predicate Valid()
      reads this, reqPool, reqPool.free, resPool, resPool.free, reqPool2, reqPool2.free
    {
      reqPool != resPool &&
      BufferPoolOk(reqPool, UnbindReqBytes) &&
      BufferPoolOk(resPool, UnbindResBytes) &&
      WriterPoolOk(reqPool2, UnbindReqBytes)
    }

    constructor (codes: Codes)
      ensures Valid() && this.codes == codes
      ensures fresh(reqPool) && fresh(resPool) && fresh(reqPool2)
      ensures reqPool.free == [] && resPool.free == [] && reqPool2.free == []
    {
      this.codes := codes;
      reqPool := new Pool<Buffer>();
      resPool := new Pool<Buffer>();
      reqPool2 := new Pool<Writer>();
    }

    /**
     * Takes a buffer from p, or allocates one of capacity cap when the
     * pool is empty (the pool's `New`).
     */
    static method Acquire(p: Pool<Buffer>, cap: nat) returns (buf: Buffer)
      requires BufferPoolOk(p, cap)
      modifies p
      ensures BufferPoolOk(p, cap)
      ensures buf.pool == p && buf.capacity == cap && buf.bytes == [] && buf !in p.free
      ensures p.gets == old(p.gets) + 1 && p.puts == old(p.puts)
      ensures buf in old(p.free) || fresh(buf)
      ensures p.free + [buf] == old(p.free) || (fresh(buf) && p.free == old(p.free))
    {
      var got := p.Get();
      if got.Some? {
        buf := got.value;
      } else {
        buf := new Buffer(p, cap);
      }
    }

    /**
     * The five stream writes of `PackReq` into an empty request buffer,
     * stopping at the first that fails.
     */
    static method WriteReq(buf: Buffer, c: Codes, seqNum: uint64, uid: int64, fault: Fault)
      returns (err: Option<Error>)
      requires buf.bytes == [] && buf.capacity == UnbindReqBytes
      modifies buf
      ensures err == None <==> fault.Spares(5)
      ensures err == None ==> buf.bytes == ReqFrame(c, seqNum, uid)
      ensures err != None ==> err == Some(ErrWrite)
    {
      Int32Fits(18);
      Int8Fits(c.unbindReq);
      Int64Fits(uid);
      var size, header := EncodeInt(UnbindReqBytes - SizeBytes, SizeBytes), EncodeUint(c.dataBit, HeaderBytes);
      var route, sq := EncodeInt(c.unbindReq, RouteBytes), EncodeUint(seqNum, SeqBytes);
      var id := EncodeInt(uid, UidBytes);
      err := buf.Write(size, !fault.Rejects(0));
      if err != None {
        return;
      }
      assert buf.bytes == size;
      err := buf.Write(header, !fault.Rejects(1));
      if err != None {
        return;
      }
      assert buf.bytes == size + header;
      err := buf.Write(route, !fault.Rejects(2));
      if err != None {
        return;
      }
      assert buf.bytes == size + header + route;
      err := buf.Write(sq, !fault.Rejects(3));
      if err != None {
        return;
      }
      assert buf.bytes == size + header + route + sq;
      err := buf.Write(id, !fault.Rejects(4));
      }

    /** The five stream writes of `PackRes` into an empty response buffer. */
    static method WriteRes(buf: Buffer, c: Codes, seqNum: uint64, code: int16, fault: Fault)
      returns (err: Option<Error>)
      requires buf.bytes == [] && buf.capacity == UnbindResBytes
      modifies buf
      ensures err == None <==> fault.Spares(5)
      ensures err == None ==> buf.bytes == ResFrame(c, seqNum, code)
      ensures err != None ==> err == Some(ErrWrite)
    {
      Int32Fits(12);
      Int8Fits(c.unbindRes);
      Int16Fits(code);
      var size, header := EncodeInt(UnbindResBytes - SizeBytes, SizeBytes), EncodeUint(c.dataBit, HeaderBytes);
      var route, sq := EncodeInt(c.unbindRes, RouteBytes), EncodeUint(seqNum, SeqBytes);
      var cd := EncodeInt(code, CodeBytes);
      err := buf.Write(size, !fault.Rejects(0));
      if err != None {
        return;
      }
      assert buf.bytes == size;
      err := buf.Write(header, !fault.Rejects(1));
      if err != None {
        return;
      }
      assert buf.bytes == size + header;
      err := buf.Write(route, !fault.Rejects(2));
      if err != None {
        return;
      }
      assert buf.bytes == size + header + route;
      err := buf.Write(sq, !fault.Rejects(3));
      if err != None {
        return;
      }
      assert buf.bytes == size + header + route + sq;
      err := buf.Write(cd, !fault.Rejects(4));
      }

    /**
     * `PackReq`: takes a request buffer from its pool and fills it; when a
     * write fails the deferred `Recycle` puts the buffer back before the
     * error is returned, and only on success does the caller own it.
     */
    method PackReq(seqNum: uint64, uid: int64, fault: Fault) returns (buf: Buffer, err: Option<Error>)
      requires Valid()
      modifies reqPool, reqPool.free
      ensures Valid()
      ensures buf.pool == reqPool && buf.capacity == UnbindReqBytes
      ensures err == None <==> fault.Spares(5)
      ensures err == None ==> buf.bytes == ReqFrame(codes, seqNum, uid) && buf !in reqPool.free
      ensures err != None ==> err == Some(ErrWrite) && buf in reqPool.free
      ensures reqPool.gets == old(reqPool.gets) + 1
      ensures reqPool.puts == old(reqPool.puts) + (if err == None then 0 else 1)
      ensures buf in old(reqPool.free) || fresh(buf)
      ensures err == None ==>
        reqPool.free + [buf] == old(reqPool.free) || (fresh(buf) && reqPool.free == old(reqPool.free))
      ensures err != None ==>
        reqPool.free == old(reqPool.free) || (fresh(buf) && reqPool.free == old(reqPool.free) + [buf])
    {
      buf := Acquire(reqPool, UnbindReqBytes);
      err := WriteReq(buf, codes, seqNum, uid, fault);
      if err != None {
        buf.Recycle();
      }
    }

    /**
     * `PackReq2`: the same frame through the typed writer. No typed write
     * can fail on a writer of the request's length, so the deferred
     * `Recycle` never runs.
     */
    method PackReq2(seqNum: uint64, uid: int64) returns (writer: Writer)
      requires Valid()
      modifies reqPool2, reqPool2.free, set w | w in reqPool2.free :: w.buf
      ensures Valid()
      ensures writer.pool == reqPool2 && writer.Valid() && writer !in reqPool2.free
      ensures writer.buf.Length == UnbindReqBytes && (fresh(writer) ==> fresh(writer.buf))
      ensures writer.Contents() == ReqFrame(codes, seqNum, uid)
      ensures reqPool2.gets == old(reqPool2.gets) + 1 && reqPool2.puts == old(reqPool2.puts)
      ensures writer in old(reqPool2.free) || fresh(writer)
      ensures reqPool2.free + [writer] == old(reqPool2.free) || (fresh(writer) && reqPool2.free == old(reqPool2.free))
    {
      var got := reqPool2.Get();
      if got.Some? {
        writer := got.value;
      } else {
        writer := new Writer(reqPool2, UnbindReqBytes);
      }
      WriteReq2(writer, codes, seqNum, uid);
    }

    /** The five typed writes of `PackReq2` into a rewound request writer. */
    static method WriteReq2(writer: Writer, c: Codes, seqNum: uint64, uid: int64)
      requires writer.off == 0 && writer.buf.Length == UnbindReqBytes
      modifies writer, writer.buf
      ensures writer.Valid() && writer.Contents() == ReqFrame(c, seqNum, uid)
    {
      var size, header := PutInt(UnbindReqBytes - SizeBytes, SizeBytes), PutUint(c.dataBit, HeaderBytes);
      var route, sq, id := PutInt(c.unbindReq, RouteBytes), PutUint(seqNum, SeqBytes), PutInt(uid, UidBytes);
      writer.WriteInt32s(UnbindReqBytes - SizeBytes);
      assert writer.Contents() == size;
      writer.WriteUint8s(c.dataBit);
      assert writer.Contents() == size + header;
      writer.WriteInt8s(c.unbindReq);
      assert writer.Contents() == size + header + route;
      writer.WriteUint64s(seqNum);
      assert writer.Contents() == size + header + route + sq;
      writer.WriteInt64s(uid);
      assert writer.Contents() == TypedReqFrame(c, seqNum, uid);
      TypedReqFrameIsReqFrame(c, seqNum, uid);
    }

    /** `PackRes`: as `PackReq`, with the response route and the status code. */
    method PackRes(seqNum: uint64, code: int16, fault: Fault) returns (buf: Buffer, err: Option<Error>)
      requires Valid()
      modifies resPool, resPool.free
      ensures Valid()
      ensures buf.pool == resPool && buf.capacity == UnbindResBytes
      ensures err == None <==> fault.Spares(5)
      ensures err == None ==> buf.bytes == ResFrame(codes, seqNum, code) && buf !in resPool.free
      ensures err != None ==> err == Some(ErrWrite) && buf in resPool.free
      ensures resPool.gets == old(resPool.gets) + 1
      ensures resPool.puts == old(resPool.puts) + (if err == None then 0 else 1)
      ensures buf in old(resPool.free) || fresh(buf)
      ensures err == None ==>
        resPool.free + [buf] == old(resPool.free) || (fresh(buf) && resPool.free == old(resPool.free))
      ensures err != None ==>
        resPool.free == old(resPool.free) || (fresh(buf) && resPool.free == old(resPool.free) + [buf])
    {
      buf := Acquire(resPool, UnbindResBytes);
      err := WriteRes(buf, codes, seqNum, code, fault);
      if err != None {
        buf.Recycle();
      }
    }
  }
}
