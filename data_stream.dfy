/**
 * The data model of the L7 byte-stream layer: the outcome of one parse, a
 * captured chunk with its read cursor, the three fixed-capacity caches of a
 * connection direction, and the request/response record with its latency.
 */
module DataStream {
  import opened Wrappers
  import opened CStr

  /** Outcome of a single parse (parse_state_t). */
  datatype ParseState = Success | Invalid | NeedsMoreData | Ignore | Eos | NotFound | Unknown

  /** Direction of an L7 message (message_type_t). */
  datatype MessageType = MessageUnknown | MessageRequest | MessageResponse

  const FRAME_BUF_SIZE: nat := 1024
  const RECORD_BUF_SIZE: nat := 1024
  const RAW_BUF_SIZE: nat := 50
  const RAW_DATA_FLAGS_INVALID: bv32 := 0x1

  /**
   * One chunk of captured bytes (raw_data_s). The bytes never change; the
   * cursor currentPos moves forward as parsers consume them. The count of
   * unconsumed bytes is |data| - currentPos.
   */
  class RawData {
    var flags: bv32
    const timestampNs: nat
    const data: seq<char>
    var currentPos: nat

    ghost predicate Valid()
      reads this
    {
      currentPos <= |data| && timestampNs < U64_MOD
    }

    function Unconsumed(): nat
      reads this
      requires Valid()
    {
      |data| - currentPos
    }

    /** The bytes not yet consumed. */
    function Rest(): seq<char>
      reads this
      requires Valid()
    {
      data[currentPos..]
    }

    constructor (bytes: seq<char>, ts: nat)
      requires ts < U64_MOD
      ensures Valid() && data == bytes && timestampNs == ts
      ensures currentPos == 0 && flags == 0
    {
      data := bytes;
      timestampNs := ts;
      currentPos := 0;
      flags := 0;
    }

    /** parser_raw_data_offset: moves the cursor forward by n bytes. */
    method Advance(n: nat)
      requires Valid() && n <= Unconsumed()
      modifies this
      ensures Valid() && currentPos == old(currentPos) + n
      ensures flags == old(flags)
      ensures Rest() == old(Rest())[n..]
    {
      currentPos := currentPos + n;
    }

    method MarkInvalid()
      modifies this
      ensures flags == old(flags) | RAW_DATA_FLAGS_INVALID
      ensures currentPos == old(currentPos)
    {
      flags := flags | RAW_DATA_FLAGS_INVALID;
    }
  }

  /** A parsed frame (frame_data_s): its direction, payload and capture time. */
  datatype FrameData<F> = FrameData(msgType: MessageType, frame: F, timestampNs: nat)

  /**
   * The frame cache (frame_buf_s): frames[0..frameBufSize) are filled, and
   * currentPos is the next frame to hand on.
   */
  class FrameBuf<F> {
    var frames: array<Option<FrameData<F>>>
    var frameBufSize: nat
    var currentPos: nat

    ghost predicate Valid()
      reads this
    {
      frames.Length == FRAME_BUF_SIZE && currentPos <= frameBufSize <= FRAME_BUF_SIZE
    }

    constructor ()
      ensures Valid() && fresh(frames)
      ensures frameBufSize == 0 && currentPos == 0
    {
      frames := new Option<FrameData<F>>[FRAME_BUF_SIZE](_ => None);
      frameBufSize := 0;
      currentPos := 0;
    }

    /** Stores a frame after the last one, or refuses when all slots are used. */
    method Push(f: FrameData<F>) returns (ok: bool)
      requires Valid()
      modifies this, frames
      ensures Valid() && frames == old(frames)
      ensures ok <==> old(frameBufSize) < FRAME_BUF_SIZE
      ensures ok ==> frameBufSize == old(frameBufSize) + 1 && frames[old(frameBufSize)] == Some(f)
      ensures !ok ==> frameBufSize == old(frameBufSize) && frames[..] == old(frames[..])
      ensures currentPos == old(currentPos)
      ensures forall i :: 0 <= i < old(frameBufSize) ==> frames[i] == old(frames[i])
    {
      if frameBufSize >= FRAME_BUF_SIZE {
        return false;
      }
      frames[frameBufSize] := Some(f);
      frameBufSize := frameBufSize + 1;
      ok := true;
    }

    /** Hands on the frame at currentPos, if any remains. */
    method Next() returns (f: Option<FrameData<F>>)
      requires Valid()
      modifies this
      ensures Valid() && frameBufSize == old(frameBufSize)
      ensures old(currentPos) < frameBufSize ==> f == frames[old(currentPos)] && currentPos == old(currentPos) + 1
      ensures old(currentPos) == frameBufSize ==> f == None && currentPos == old(currentPos)
    {
      if currentPos == frameBufSize {
        return None;
      }
      f := frames[currentPos];
      currentPos := currentPos + 1;
    }
  }

  /** The raw-chunk cache of one stream direction (raw_buf_s). */
  class RawBuf {
    var rawDatas: array<RawData?>
    var rawBufSize: nat

    ghost predicate Valid()
      reads this
    {
      rawDatas.Length == RAW_BUF_SIZE && rawBufSize <= RAW_BUF_SIZE
    }

    constructor ()
      ensures Valid() && fresh(rawDatas) && rawBufSize == 0
    {
      rawDatas := new RawData?[RAW_BUF_SIZE](_ => null);
      rawBufSize := 0;
    }

    /** The cached chunks, oldest first. */
    function Chunks(): seq<RawData?>
      reads this, rawDatas
      requires Valid()
    {
      rawDatas[..rawBufSize]
    }

    /**
     * Queues a chunk after the others; when all RAW_BUF_SIZE slots are
     * taken, the oldest chunk is dropped first and evicted reports it.
     */
    method Add(raw: RawData) returns (evicted: bool)
      requires Valid()
      modifies this, rawDatas
      ensures Valid() && rawDatas == old(rawDatas)
      ensures evicted <==> old(rawBufSize) == RAW_BUF_SIZE
      ensures Chunks() == (if evicted then old(Chunks())[1..] else old(Chunks())) + [raw]
    {
      evicted := rawBufSize == RAW_BUF_SIZE;
      if evicted {
        ShiftOut();
      }
      rawDatas[rawBufSize] := raw;
      rawBufSize := rawBufSize + 1;
    }

    /** Drops the oldest chunk of a full cache, moving every other one a slot toward the front. */
    method ShiftOut()
      requires Valid() && rawBufSize == RAW_BUF_SIZE
      modifies this, rawDatas
      ensures Valid() && rawDatas == old(rawDatas)
      ensures rawBufSize == RAW_BUF_SIZE - 1 && Chunks() == old(Chunks())[1..]
    {
      var i := 0;
      while i < RAW_BUF_SIZE - 1
        invariant 0 <= i <= RAW_BUF_SIZE - 1
        invariant Valid() && rawDatas == old(rawDatas) && rawBufSize == RAW_BUF_SIZE
        invariant forall k :: 0 <= k < i ==> rawDatas[k] == old(rawDatas[k + 1])
        invariant forall k :: i <= k < RAW_BUF_SIZE ==> rawDatas[k] == old(rawDatas[k])
      {
        rawDatas[i] := rawDatas[i + 1];
        i := i + 1;
      }
      rawBufSize := RAW_BUF_SIZE - 1;
    }
  }

  /**
   * Latency of a matched pair: response time minus request time, computed in
   * u64 arithmetic, so it wraps when the response predates the request.
   */
  function Latency(reqTs: nat, respTs: nat): (l: nat)
    requires reqTs < U64_MOD && respTs < U64_MOD
    ensures l < U64_MOD
    ensures (reqTs + l) % U64_MOD == respTs
    ensures reqTs <= respTs ==> l + reqTs == respTs
  {
    (respTs - reqTs) % U64_MOD
  }

  /** A matched request/response pair (record_data_s). */
  datatype RecordData<R> = RecordData(record: R, latency: nat)

  /** The record cache (record_buf_s) with its three counters. */
  class RecordBuf<R> {
    var records: array<Option<RecordData<R>>>
    var recordBufSize: nat
    var errCount: nat
    var reqCount: nat
    var respCount: nat

    ghost predicate Valid()
      reads this
    {
      records.Length == RECORD_BUF_SIZE && recordBufSize <= RECORD_BUF_SIZE
    }

    constructor ()
      ensures Valid() && fresh(records)
      ensures recordBufSize == 0 && errCount == 0 && reqCount == 0 && respCount == 0
    {
      records := new Option<RecordData<R>>[RECORD_BUF_SIZE](_ => None);
      recordBufSize := 0;
      errCount := 0;
      reqCount := 0;
      respCount := 0;
    }

    /** Stores the record of a matched pair with its latency, or refuses when full. */
    method AddRecord(rec: R, reqTs: nat, respTs: nat) returns (ok: bool)
      requires Valid() && reqTs < U64_MOD && respTs < U64_MOD
      modifies this, records
      ensures Valid() && records == old(records)
      ensures ok <==> old(recordBufSize) < RECORD_BUF_SIZE
      ensures ok ==> recordBufSize == old(recordBufSize) + 1
                     && records[old(recordBufSize)] == Some(RecordData(rec, Latency(reqTs, respTs)))
      ensures !ok ==> recordBufSize == old(recordBufSize) && records[..] == old(records[..])
      ensures forall i :: 0 <= i < old(recordBufSize) ==> records[i] == old(records[i])
      ensures errCount == old(errCount) && reqCount == old(reqCount) && respCount == old(respCount)
    {
      if recordBufSize >= RECORD_BUF_SIZE {
        return false;
      }
      records[recordBufSize] := Some(RecordData(rec, Latency(reqTs, respTs)));
      recordBufSize := recordBufSize + 1;
      ok := true;
    }
  }

  /** Protocol carried by a stream (proto_type_t); only HTTP is modelled. */
  datatype ProtoType = ProtoUnknown | ProtoHttp

  /** One direction of one connection (data_stream_s). */
  class Stream<F> {
    const rawBufs: RawBuf
    const frameBufs: FrameBuf<F>
    var protoType: ProtoType

    ghost predicate Valid()
      reads this, rawBufs, frameBufs
    {
      rawBufs.Valid() && frameBufs.Valid()
    }

    constructor (t: ProtoType)
      ensures Valid() && fresh(rawBufs) && fresh(frameBufs) && protoType == t
      ensures rawBufs.rawBufSize == 0 && frameBufs.frameBufSize == 0 && frameBufs.currentPos == 0
      ensures fresh(rawBufs.rawDatas) && fresh(frameBufs.frames)
    {
      rawBufs := new RawBuf();
      frameBufs := new FrameBuf<F>();
      protoType := t;
    }
  }
}
