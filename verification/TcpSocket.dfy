/** One end of a TCP connection (rbtl-tcp socket.rs); every write is complete. */
module TcpSocket {
  import opened Prelude
  import opened StreamIngester
  import opened TcpStream

  datatype Status = Connecting | Connected | Failed(kind: ErrorKind) | Timeout | LocalEnded | RemoteEnded
  {
    predicate IsOver() { !Connecting? && !Connected? }
  }

  datatype Event = DataEvent(bytes: seq<byte>) | StatusEvent(status: Status)

  /**
   * The fields of a socket that results and sends change; `ready` says whether there is a stream to write
   * to, and `written` is everything written to it.
   */
  datatype Endpoint = Endpoint(ready: bool, outSeqId: u32, lastOk: Option<u32>, status: Status, events: seq<Event>,
                               written: seq<byte>)
  {
    function Writes(bytes: seq<byte>): Endpoint {
      if ready then this.(written := written + bytes) else this
    }
  }

  /** What one result of the ingester does to the socket. */
  function Handle(e: Endpoint, r: Result): Endpoint {
    match r
    case Data(seqId, bytes) => e.(events := e.events + [DataEvent(bytes)]).Writes(Encode(StatusMessage(seqId)))
    case Heartbeat => e
    case Error(kind) => e.(events := e.events + [StatusEvent(Failed(kind))], status := Failed(kind))
    case SeqIdOk(seqId) => e.(lastOk := Some(seqId))
  }

  function HandleAll(e: Endpoint, rs: seq<Result>): Endpoint {
    if rs == [] then e else Handle(HandleAll(e, rs[..|rs| - 1]), rs[|rs| - 1])
  }

  function LastError(rs: seq<Result>): Option<ErrorKind> {
    if rs == [] then None
    else if rs[|rs| - 1].Error? then Some(rs[|rs| - 1].kind) else LastError(rs[..|rs| - 1])
  }

  function LastReceipt(rs: seq<Result>): Option<u32> {
    if rs == [] then None
    else if rs[|rs| - 1].SeqIdOk? then Some(rs[|rs| - 1].seqId) else LastReceipt(rs[..|rs| - 1])
  }

  /** The last error decides the status, and the last receipt the last acknowledged id; without any, they stay. */
  lemma {:induction false} LastDecides(e: Endpoint, rs: seq<Result>)
    ensures HandleAll(e, rs).status == if LastError(rs).Some? then Failed(LastError(rs).value) else e.status
    ensures HandleAll(e, rs).lastOk == if LastReceipt(rs).Some? then LastReceipt(rs) else e.lastOk
  {
    if rs != [] { LastDecides(e, rs[..|rs| - 1]); }
  }

  /** Each message of data and each error is told to the user, in order, and nothing else. */
  lemma {:induction false} ToldInOrder(e: Endpoint, rs: seq<Result>)
    ensures e.events <= HandleAll(e, rs).events
    ensures rs != [] ==>
      HandleAll(e, rs).events == HandleAll(e, rs[..|rs| - 1]).events +
        match rs[|rs| - 1] {
          case Data(_, bytes) => [DataEvent(bytes)]
          case Error(kind) => [StatusEvent(Failed(kind))]
          case _ => []
        }
  {
    if rs != [] { ToldInOrder(e, rs[..|rs| - 1]); }
  }

  /** The id is used up even when there is no stream yet. */
  function AfterSend(e: Endpoint, bytes: seq<byte>): Endpoint {
    e.(outSeqId := (e.outSeqId + 1) % U32_COUNT).Writes(Encode(DataMessage(e.outSeqId, bytes)))
  }

  /** Ids are compared modulo 2^32: `seqId` is received when it is less than half the range behind. */
  function IsReceived(lastOk: Option<u32>, seqId: u32): bool {
    match lastOk
    case None => false
    case Some(ok) => (ok - seqId) % U32_COUNT < 0xFFFF_FFFF / 2
  }

  /** `ok` is `seqId` plus `d`, wrapped: the message `d` after it was acknowledged. */
  predicate Ahead(ok: u32, seqId: u32, d: nat) { ok == (seqId + d) % U32_COUNT }

  /** Received means that the last acknowledged message is this one or one of the next 2^31 - 2. */
  lemma ReceivedIffAhead(lastOk: Option<u32>, seqId: u32)
    ensures IsReceived(lastOk, seqId) <==>
      lastOk.Some? && exists d: nat :: d < 0x7FFF_FFFF && Ahead(lastOk.value, seqId, d)
  {
    if lastOk.Some? {
      var diff := (lastOk.value - seqId) % U32_COUNT;
      assert Ahead(lastOk.value, seqId, diff);
      forall d: nat | d < 0x7FFF_FFFF && Ahead(lastOk.value, seqId, d) ensures d == diff {}
    }
  }

  // ----- Reading several chunks before handling any result -----

  /** The results of chunks read one after the other, and what is held then; no chunk is empty. */
  function Reads(held: seq<byte>, chunks: seq<seq<byte>>, maxLen: u32): Parsed {
    if chunks == [] then Parsed([], held)
    else
      var p := Reads(held, chunks[..|chunks| - 1], maxLen);
      var q := Parse(p.rest + chunks[|chunks| - 1], maxLen);
      Parsed(p.results + q.results, Kept(q, p.rest))
  }

  lemma {:induction false} HandleConcat(e: Endpoint, a: seq<Result>, b: seq<Result>)
    ensures HandleAll(e, a + b) == HandleAll(HandleAll(e, a), b)
  {
    if b == [] {
      assert a + b == a;
    } else {
      HandleConcat(e, a, b[..|b| - 1]);
      assert (a + b)[..|a + b| - 1] == a + b[..|b| - 1];
    }
  }

  /** Handling the results of all waiting chunks at the end is the same as handling each chunk as it is read. */
  lemma ReadingTogether(e: Endpoint, held: seq<byte>, chunks: seq<seq<byte>>, chunk: seq<byte>, maxLen: u32)
    ensures var (p, all) := (Reads(held, chunks, maxLen), Reads(held, chunks + [chunk], maxLen));
      var q := Parse(p.rest + chunk, maxLen);
      HandleAll(e, all.results) == HandleAll(HandleAll(e, p.results), q.results) && all.rest == Kept(q, p.rest)
  {
    hide Parse;
    assert (chunks + [chunk])[..|chunks|] == chunks;
    var p := Reads(held, chunks, maxLen);
    HandleConcat(e, p.results, Parse(p.rest + chunk, maxLen).results);
  }

  class Socket {
    const ingester: Ingester
    const maxMsgLen: u32
    var ready: bool
    var outSeqId: u32
    var lastOkSeqId: Option<u32>
    var status: Status
    var events: seq<Event>
    var stream: seq<byte>

    ghost predicate Valid()
      reads this, ingester
    {
      ingester.Valid() && ingester.Within(maxMsgLen)
    }

    ghost function State(): Endpoint
      reads this
    {
      Endpoint(ready, outSeqId, lastOkSeqId, status, events, stream)
    }

    /** With a stream, or one that another thread is still connecting. */
    constructor (maxMsgLen: u32, ready: bool)
      ensures Valid() && fresh(ingester) && this.maxMsgLen == maxMsgLen
      ensures State() == Endpoint(ready, 0, None, if ready then Connected else Connecting, [], [])
      ensures ingester.incomplete == None && ingester.results == []
    {
      ingester := new Ingester();
      this.maxMsgLen := maxMsgLen;
      this.ready := ready;
      outSeqId := 0;
      lastOkSeqId := None;
      status := if ready then Connected else Connecting;
      events := [];
      stream := [];
    }

    /** The other thread has connected the stream. */
    method StreamConnected()
      modifies this`ready
      ensures ready
    {
      ready := true;
    }

    /** Notices that the stream has been connected. */
    method MaybeUpdateConnecting()
      modifies this`status, this`events
      ensures if old(status).Connecting? && ready
        then status == Connected && events == old(events) + [StatusEvent(Connected)]
              else status == old(status) && events == old(events)
    {
      if status.Connecting? && ready { SetStatus(Connected); }
    }

    /** Without a stream nothing is written and `None`, an error, is returned; the id is used up all the same. */
    method SendData(bytes: seq<byte>) returns (seqId: Option<u32>)
      modifies this
      ensures seqId == (if ready then Some(old(outSeqId)) else None) && State() == AfterSend(old(State()), bytes)
      ensures outSeqId == (old(outSeqId) + 1) % 0x1_0000_0000
      ensures stream == old(stream) + if ready then Encode(DataMessage(old(outSeqId), bytes)) else []
    {
      var id := outSeqId;
      outSeqId := (outSeqId + 1) % U32_COUNT;
      if !ready { return None; }
      var out := EncodeData(id, bytes);
      stream := stream + out[..];
      return Some(id);
    }

    method SendStatus(seqId: u32)
      modifies this`stream
      ensures State() == old(State()).Writes(Encode(StatusMessage(seqId)))
    {
      if ready {
        var out := EncodeStatus(seqId);
        stream := stream + out[..];
      }
    }

    /** A finished status is never replaced by another finished one. */
    method SetStatus(newStatus: Status)
      modifies this`status, this`events
      ensures if newStatus.IsOver() && old(status).IsOver() then status == old(status) && events == old(events)
              else status == newStatus && events == old(events) + [StatusEvent(newStatus)]
    {
      if !newStatus.IsOver() || !status.IsOver() {
        events := events + [StatusEvent(newStatus)];
        status := newStatus;
      }
    }

    method ProcessIngesterResults()
      requires Valid()
      modifies this, ingester
      ensures Valid() && ingester.results == [] && ingester.Held() == old(ingester.Held())
      ensures State() == HandleAll(old(State()), old(ingester.results))
    {
      var results := ingester.results;
      ingester.results := [];
      for n := 0 to |results|
        invariant Valid() && ingester.results == [] && ingester.incomplete == old(ingester.incomplete)
        invariant State() == HandleAll(old(State()), results[..n])
      {
        assert results[..n + 1][..n] == results[..n];
        match results[n]
        case Data(seqId, bytes) =>
          events := events + [DataEvent(bytes)];
          SendStatus(seqId);
        case Heartbeat =>
        case Error(kind) =>
          events := events + [StatusEvent(Failed(kind))];
          status := Failed(kind);
        case SeqIdOk(seqId) =>
          lastOkSeqId := Some(seqId);
      }
      assert results[..|results|] == results;
    }

    /** Reads all waiting chunks, then handles what they complete. */
    method Receive(chunks: seq<seq<byte>>)
      requires Valid() && ingester.results == [] && forall chunk :: chunk in chunks ==> chunk != []
      modifies this, ingester
      ensures Valid() && ingester.results == []
      ensures var p := Reads(old(ingester.Held()), chunks, maxMsgLen);
        State() == HandleAll(old(State()), p.results) && ingester.Held() == p.rest
    {
      hide Parse;
      ghost var before, held := State(), ingester.Held();
      for n := 0 to |chunks|
        invariant Valid() && State() == before
        invariant Parsed(ingester.results, ingester.Held()) == Reads(held, chunks[..n], maxMsgLen)
      {
        assert chunks[..n + 1][..n] == chunks[..n] && chunks[n] in chunks;
        ingester.TakeBytes(chunks[n], maxMsgLen);
      }
      assert chunks[..|chunks|] == chunks;
      ProcessIngesterResults();
    }

    /** Ids are compared modulo 2^32. */
    method IsSeqIdReceived(seqId: u32) returns (r: bool)
      ensures r == IsReceived(lastOkSeqId, seqId)
      ensures r <==> lastOkSeqId.Some? && exists d: nat :: d < 0x7FFF_FFFF && Ahead(lastOkSeqId.value, seqId, d)
    {
      ReceivedIffAhead(lastOkSeqId, seqId);
      match lastOkSeqId
      case None => return false;
      case Some(ok) =>
        var diff := (ok - seqId) % U32_COUNT;
        return diff < 0xFFFF_FFFF / 2;
    }
  }
}
