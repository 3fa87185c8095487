/** Whole streams: any chunking of the bytes, and the encoder the ingester undoes (rbtl-tcp socket.rs). */
module TcpStream {
  import opened Prelude
  import opened BigEndian
  import opened StreamIngester

  function Concat(chunks: seq<seq<byte>>): seq<byte> {
    if chunks == [] then [] else Concat(chunks[..|chunks| - 1]) + chunks[|chunks| - 1]
  }

  /**
   * The results after `before` are those of parsing `s` whole, up to and including the first error;
   * without an error the bytes held are its unparsed rest.
   */
  ghost predicate ParsedWhole(before: seq<Result>, results: seq<Result>, held: seq<byte>, s: seq<byte>, maxLen: u32) {
    var p := Parse(s, maxLen);
    if p.Failed() then before + p.results <= results
    else results == before + p.results && held == p.rest
  }

  /**
   * Reads chunk after chunk, as the receive loop does; how the stream is cut makes no difference to the
   * results or, without an error, to the pending state.
   */
  method TakeAll(ingester: Ingester, chunks: seq<seq<byte>>, maxLen: u32)
    requires ingester.Valid() && ingester.incomplete == None
    modifies ingester
    ensures ingester.Valid()
    ensures ParsedWhole(old(ingester.results), ingester.results, ingester.Held(), Concat(chunks), maxLen)
    ensures !Parse(Concat(chunks), maxLen).Failed() ==>
      ingester.incomplete == PendingOf(Parse(Concat(chunks), maxLen).rest)
  {
    hide Parse;
    ghost var before := ingester.results;
    ParseNothing(maxLen);
    for n := 0 to |chunks|
      invariant ingester.Valid() && ingester.Within(maxLen)
      invariant ParsedWhole(before, ingester.results, ingester.Held(), Concat(chunks[..n]), maxLen)
      invariant !Parse(Concat(chunks[..n]), maxLen).Failed() ==> ingester.Settled()
    {
      assert chunks[..n + 1][..n] == chunks[..n];
      ghost var results, held := ingester.results, ingester.Held();
      ingester.TakeBytes(chunks[n], maxLen);
      ChunkTaken(before, results, held, Concat(chunks[..n]), chunks[n], ingester.results, ingester.Held(), maxLen);
      NoErrorBefore(held, Concat(chunks[..n]), chunks[n], maxLen);
    }
    assert chunks[..|chunks|] == chunks;
    if !Parse(Concat(chunks), maxLen).Failed() { ingester.PendingDetermined(); }
  }

  /** A stream without an error has none in a beginning of it, nor in what follows. */
  lemma NoErrorBefore(held: seq<byte>, s: seq<byte>, chunk: seq<byte>, maxLen: u32)
    requires !Parse(s, maxLen).Failed() ==> held == Parse(s, maxLen).rest
    ensures chunk == [] ==> s + chunk == s
    ensures !Parse(s + chunk, maxLen).Failed() ==> !Parse(s, maxLen).Failed() && !Parse(held + chunk, maxLen).Failed()
  {
    hide Parse;
    ParseConcat(s, chunk, maxLen);
    var p, q := Parse(s, maxLen), Parse(held + chunk, maxLen);
    if !p.Failed() && q.results != [] {
      assert (p.results + q.results)[|p.results| + |q.results| - 1] == q.results[|q.results| - 1];
    }
  }

  /** One more chunk: what the ingester promises of it extends the parse of the stream so far. */
  lemma ChunkTaken(before: seq<Result>, results: seq<Result>, held: seq<byte>, s: seq<byte>, chunk: seq<byte>,
                   results': seq<Result>, held': seq<byte>, maxLen: u32)
    requires ParsedWhole(before, results, held, s, maxLen)
    requires results <= results'
    requires chunk == [] ==> results' == results && held' == held
    requires chunk != [] ==>
      results' == results + Parse(held + chunk, maxLen).results && held' == Kept(Parse(held + chunk, maxLen), held)
    ensures ParsedWhole(before, results', held', s + chunk, maxLen)
  {
    if chunk == [] {
      assert s + chunk == s;
    } else {
      var t := s + chunk;
      ParseConcat(s, chunk, maxLen);
      ExtendParsed(before, results, held, Parse(s, maxLen), Parse(held + chunk, maxLen), Parse(t, maxLen), results',
                   held');
    }
  }

  lemma ExtendParsed(before: seq<Result>, results: seq<Result>, held: seq<byte>, p: Parsed, q: Parsed, c: Parsed,
                     results': seq<Result>, held': seq<byte>)
    requires if p.Failed() then before + p.results <= results else results == before + p.results && held == p.rest
    requires if p.Failed() then c.results == p.results else c == Parsed(p.results + q.results, q.rest)
    requires results' == results + q.results && held' == Kept(q, held)
    ensures if c.Failed() then before + c.results <= results' else results' == before + c.results && held' == c.rest
  {
    if !p.Failed() {
      assert before + p.results + q.results == before + c.results;
      if q.results == [] {
        assert c.results == p.results;
      } else {
        assert c.results[|c.results| - 1] == q.results[|q.results| - 1];
      }
    }
  }

  // ----- Encoding -----

  datatype Outgoing = DataMessage(seqId: u32, bytes: seq<byte>) | StatusMessage(seqId: u32) | HeartbeatMessage

  /** What one message looks like on the wire; the length field is the length modulo 2^32. */
  function Encode(m: Outgoing): seq<byte> {
    match m
    case DataMessage(seqId, bytes) => DataHead(seqId, |bytes| % U32_COUNT) + bytes
    case StatusMessage(seqId) => [MSG_TYPE_STATUS_ID] + U32(seqId)
    case HeartbeatMessage => [MSG_TYPE_HEARTBEAT_ID]
  }

  function EncodeAll(ms: seq<Outgoing>): seq<byte> {
    if ms == [] then [] else Encode(ms[0]) + EncodeAll(ms[1..])
  }

  /** What the other side makes of a message. */
  function ResultOf(m: Outgoing): Result {
    match m
    case DataMessage(seqId, bytes) => Data(seqId, bytes)
    case StatusMessage(seqId) => SeqIdOk(seqId)
    case HeartbeatMessage => Heartbeat
  }

  function ResultsOf(ms: seq<Outgoing>): (r: seq<Result>)
    ensures |r| == |ms|
  {
    seq(|ms|, i requires 0 <= i < |ms| => ResultOf(ms[i]))
  }

  predicate Acceptable(m: Outgoing, maxLen: u32) {
    m.DataMessage? ==> |m.bytes| <= maxLen
  }

  predicate AllAcceptable(ms: seq<Outgoing>, maxLen: u32) {
    forall i :: 0 <= i < |ms| ==> Acceptable(ms[i], maxLen)
  }

  /** An empty data message is held back until another byte arrives. */
  predicate EndsEmpty(ms: seq<Outgoing>) {
    ms != [] && IsEmptyData(ms[|ms| - 1])
  }

  /** Writes the header and the payload into a buffer of the right size. */
  method EncodeData(seqId: u32, bytes: seq<byte>) returns (out: array<byte>)
    ensures fresh(out) && out[..] == Encode(DataMessage(seqId, bytes))
  {
    out := new byte[9 + |bytes|](_ => 0);
    out[0] := MSG_TYPE_DATA_ID;
    CopyInto(out, 1, U32(seqId));
    assert out[..5] == out[..1] + out[1..5];
    CopyInto(out, 5, U32(|bytes| % U32_COUNT));
    assert out[..9] == out[..5] + out[5..9] == DataHead(seqId, |bytes| % U32_COUNT);
    CopyInto(out, 9, bytes);
    assert out[..] == out[..9] + out[9..];
  }

  method EncodeStatus(seqId: u32) returns (out: array<byte>)
    ensures fresh(out) && out[..] == Encode(StatusMessage(seqId))
  {
    out := new byte[5](_ => 0);
    out[0] := MSG_TYPE_STATUS_ID;
    CopyInto(out, 1, U32(seqId));
    assert out[..] == Encode(StatusMessage(seqId));
  }

  lemma ParseData(s: seq<byte>, seqId: u32, bytes: seq<byte>, tail: seq<byte>, maxLen: u32)
    requires |bytes| <= maxLen && s == DataHead(seqId, |bytes|) + (bytes + tail)
    ensures Parse(s, maxLen)
      == if bytes == [] && tail == [] then Parsed([], s) else Prepend(Data(seqId, bytes), Parse(tail, maxLen))
  {
    HeadRead(seqId, |bytes|, bytes + tail);
    assert s[9..9 + |bytes|] == bytes && s[9 + |bytes|..] == tail;
  }

  lemma ParseStatus(s: seq<byte>, seqId: u32, tail: seq<byte>, maxLen: u32)
    requires s == [MSG_TYPE_STATUS_ID] + U32(seqId) + tail
    ensures Parse(s, maxLen) == Prepend(SeqIdOk(seqId), Parse(tail, maxLen))
  {
    ReadAfterWrite(seqId);
    assert s[1..5] == U32(seqId) && s[5..] == tail;
  }

  lemma ParseHeartbeat(s: seq<byte>, tail: seq<byte>, maxLen: u32)
    requires s == [MSG_TYPE_HEARTBEAT_ID] + tail
    ensures Parse(s, maxLen) == Prepend(Heartbeat, Parse(tail, maxLen))
  {
    assert s[1..] == tail;
  }

  predicate IsEmptyData(m: Outgoing) { m.DataMessage? && m.bytes == [] }

  /** What parsing an encoded list must give; a final empty data message stays pending. */
  function Expected(ms: seq<Outgoing>): Parsed {
    if ms == [] then Parsed([], [])
    else if |ms| == 1 && IsEmptyData(ms[0]) then Parsed([], Encode(ms[0]))
    else Prepend(ResultOf(ms[0]), Expected(ms[1..]))
  }

  lemma {:induction false} ExpectedResults(ms: seq<Outgoing>)
    ensures Expected(ms) == if EndsEmpty(ms) then Parsed(ResultsOf(ms[..|ms| - 1]), Encode(ms[|ms| - 1]))
      else Parsed(ResultsOf(ms), [])
  {
    if ms != [] {
      var m, rest := ms[0], ms[1..];
      ExpectedResults(rest);
      if rest == [] {
        assert ResultsOf(ms) == [ResultOf(m)];
      } else {
        assert rest[|rest| - 1] == ms[|ms| - 1];
        assert ResultsOf(ms) == [ResultOf(m)] + ResultsOf(rest);
        assert ResultsOf(ms[..|ms| - 1]) == [ResultOf(m)] + ResultsOf(rest[..|rest| - 1]);
      }
    }
  }

  lemma ParseEncoded(s: seq<byte>, m: Outgoing, tail: seq<byte>, maxLen: u32)
    requires Acceptable(m, maxLen) && s == Encode(m) + tail
    ensures Parse(s, maxLen) == if IsEmptyData(m) && tail == [] then Parsed([], s)
      else Prepend(ResultOf(m), Parse(tail, maxLen))
  {
    hide Parse;
    hide DataHead;
    hide U32;
    hide Prepend;
    match m
    case DataMessage(seqId, bytes) =>
      ConcatAssociates(DataHead(seqId, |bytes|), bytes, tail);
      ParseData(s, seqId, bytes, tail, maxLen);
    case StatusMessage(seqId) => ParseStatus(s, seqId, tail, maxLen);
    case HeartbeatMessage => ParseHeartbeat(s, tail, maxLen);
  }

  lemma {:induction false} EncodedParses(ms: seq<Outgoing>, maxLen: u32)
    requires AllAcceptable(ms, maxLen)
    ensures Parse(EncodeAll(ms), maxLen) == Expected(ms)
  {
    if ms != [] {
      EncodedParses(ms[1..], maxLen);
      ParseEncoded(EncodeAll(ms), ms[0], EncodeAll(ms[1..]), maxLen);
      assert EncodeAll(ms[1..]) == [] <==> |ms| == 1;
    }
  }

  /**
   * Encoding and ingesting are inverse: any list of acceptable messages comes back exactly, in order,
   * with nothing left pending, except that a final empty data message stays pending whole.
   */
  lemma RoundTrip(ms: seq<Outgoing>, maxLen: u32)
    requires AllAcceptable(ms, maxLen)
    ensures !EndsEmpty(ms) ==> Parse(EncodeAll(ms), maxLen) == Parsed(ResultsOf(ms), [])
    ensures EndsEmpty(ms) ==>
      Parse(EncodeAll(ms), maxLen) == Parsed(ResultsOf(ms[..|ms| - 1]), Encode(ms[|ms| - 1]))
  {
    EncodedParses(ms, maxLen);
    ExpectedResults(ms);
  }

  /**
   * Encoding and ingesting are inverse: the bytes of any acceptable messages, cut into any chunks, come
   * out as exactly these messages, in order, and leave nothing pending; a final empty data message alone
   * stays pending.
   */
  method IngestEncoded(chunks: seq<seq<byte>>, maxLen: u32, ghost ms: seq<Outgoing>)
    returns (results: seq<Result>, pending: Option<Incoming>)
    requires AllAcceptable(ms, maxLen) && Concat(chunks) == EncodeAll(ms)
    ensures !EndsEmpty(ms) ==> results == ResultsOf(ms) && pending == None
    ensures EndsEmpty(ms) ==>
      results == ResultsOf(ms[..|ms| - 1]) && pending == Some(Message([], 0, ms[|ms| - 1].seqId))
  {
    hide Parse;
    hide EncodeAll;
    hide ResultsOf;
    hide Concat;
    var ingester := new Ingester();
    TakeAll(ingester, chunks, maxLen);
    RoundTrip(ms, maxLen);
    results, pending := ingester.results, ingester.incomplete;
    assert !Parse(EncodeAll(ms), maxLen).Failed() by { NoErrorIn(ms, maxLen); }
    if EndsEmpty(ms) { EmptyPending(ms[|ms| - 1]); }
  }

  lemma NoErrorIn(ms: seq<Outgoing>, maxLen: u32)
    requires AllAcceptable(ms, maxLen)
    ensures !Parse(EncodeAll(ms), maxLen).Failed()
  {
    PrefixParses(ms, EncodeAll(ms), maxLen);
  }

  lemma EmptyPending(m: Outgoing)
    requires IsEmptyData(m)
    ensures PendingOf(Encode(m)) == Some(Message([], 0, m.seqId))
  {
    HeadRead(m.seqId, 0, []);
    assert DataHead(m.seqId, 0) + [] == DataHead(m.seqId, 0);
  }

  /** Whatever part of an encoded list has arrived, what was parsed is the first messages of the list. */
  lemma PrefixParses(ms: seq<Outgoing>, part: seq<byte>, maxLen: u32)
    requires AllAcceptable(ms, maxLen) && part <= EncodeAll(ms)
    ensures !Parse(part, maxLen).Failed()
    ensures Parse(part, maxLen).results <= ResultsOf(ms)
  {
    var s, rest := EncodeAll(ms), EncodeAll(ms)[|part|..];
    assert s == part + rest;
    ParseConcat(part, rest, maxLen);
    RoundTrip(ms, maxLen);
    FirstResults(Parse(part, maxLen), Parse(s, maxLen), Parse(Parse(part, maxLen).rest + rest, maxLen), ms);
  }

  /** Reading on in an encoded list continues the parse, without an error. */
  lemma ReadOn(ms: seq<Outgoing>, before: seq<byte>, chunk: seq<byte>, maxLen: u32, p: Parsed, q: Parsed)
    requires AllAcceptable(ms, maxLen) && before + chunk <= EncodeAll(ms)
    requires p == Parse(before, maxLen) && q == Parse(p.rest + chunk, maxLen)
    ensures Parse(before + chunk, maxLen) == Parsed(p.results + q.results, q.rest)
    ensures !q.Failed() && p.results + q.results <= ResultsOf(ms)
  {
    hide Parse;
    hide EncodeAll;
    assert before <= EncodeAll(ms) by { assert before <= before + chunk; }
    PrefixParses(ms, before, maxLen);
    ParseConcat(before, chunk, maxLen);
    PrefixParses(ms, before + chunk, maxLen);
    if q.results != [] {
      assert (p.results + q.results)[|p.results| + |q.results| - 1] == q.results[|q.results| - 1];
    }
  }

  lemma FirstResults(p: Parsed, q: Parsed, r: Parsed, ms: seq<Outgoing>)
    requires q.results <= ResultsOf(ms)
    requires if p.Failed() then q.results == p.results else q.results == p.results + r.results
    ensures !p.Failed() && p.results <= ResultsOf(ms)
  {
    assert forall i :: 0 <= i < |q.results| ==> q.results[i] == ResultsOf(ms)[i];
  }

  // ----- Every stream -----

  /** An unknown message id, or the header of a data message that is too long. */
  predicate Broken(t: seq<byte>, maxLen: u32) {
    t != [] && (t[0] > 2 || (t[0] == 0 && |t| >= 9 && ReadU32(t[5..9]) > maxLen))
  }

  function ErrorOf(t: seq<byte>, maxLen: u32): ErrorKind
    requires Broken(t, maxLen)
  {
    if t[0] > 2 then WrongMessageId(t[0]) else MessageTooBig(ReadU32(t[5..9]))
  }

  /** Nothing, or a message of which something may still come. */
  predicate Unfinished(t: seq<byte>, maxLen: u32) {
    || t == []
    || (t[0] == 0 && (|t| < 9 || (ReadU32(t[5..9]) <= maxLen && (|t| == 9 || |t| < 9 + ReadU32(t[5..9])))))
    || (t[0] == 1 && |t| < 5)
  }

  /** What must come of messages followed by such bytes. */
  function Outcome(ms: seq<Outgoing>, t: seq<byte>, maxLen: u32): Parsed {
    Parsed(ResultsOf(ms) + (if Broken(t, maxLen) then [Error(ErrorOf(t, maxLen))] else []), t)
  }

  /**
   * After acceptable messages, an unknown id or a refused header is exactly one more result, the error;
   * an unfinished message is none.
   */
  lemma {:induction false} EncodedThen(ms: seq<Outgoing>, t: seq<byte>, maxLen: u32)
    requires AllAcceptable(ms, maxLen) && (Broken(t, maxLen) || Unfinished(t, maxLen))
    requires t == [] ==> !EndsEmpty(ms)
    ensures Parse(EncodeAll(ms) + t, maxLen) == Outcome(ms, t, maxLen)
  {
    hide Parse;
    hide Encode;
    hide ErrorOf;
    hide Broken;
    hide Unfinished;
    if ms == [] {
      assert EncodeAll(ms) + t == t;
      Stops(t, maxLen);
    } else {
      var tail := EncodeAll(ms[1..]) + t;
      EncodedThen(ms[1..], t, maxLen);
      ConcatAssociates(Encode(ms[0]), EncodeAll(ms[1..]), t);
      ParseEncoded(EncodeAll(ms) + t, ms[0], tail, maxLen);
      SomethingEncoded(ms[1..]);
      OutcomeNext(ms, t, maxLen);
    }
  }

  lemma SomethingEncoded(ms: seq<Outgoing>)
    ensures EncodeAll(ms) == [] ==> ms == []
  {}

  lemma OutcomeNext(ms: seq<Outgoing>, t: seq<byte>, maxLen: u32)
    requires ms != []
    ensures Outcome(ms, t, maxLen) == Prepend(ResultOf(ms[0]), Outcome(ms[1..], t, maxLen))
  {
    assert ResultsOf(ms) == [ResultOf(ms[0])] + ResultsOf(ms[1..]);
    var error := Outcome([], t, maxLen).results;
    ConcatAssociates([ResultOf(ms[0])], ResultsOf(ms[1..]), error);
    assert ResultsOf([]) + error == error;
  }

  lemma Stops(t: seq<byte>, maxLen: u32)
    requires Broken(t, maxLen) || Unfinished(t, maxLen)
    ensures Parse(t, maxLen) == Outcome([], t, maxLen)
  {}

  /** Every stream is a list of acceptable messages and then nothing, an unfinished message or a broken one. */
  lemma {:induction false} EveryStreamSplits(s: seq<byte>, maxLen: u32) returns (ms: seq<Outgoing>, t: seq<byte>)
    ensures AllAcceptable(ms, maxLen) && s == EncodeAll(ms) + t
    ensures Broken(t, maxLen) || Unfinished(t, maxLen)
    ensures t == [] ==> !EndsEmpty(ms)
    decreases |s|
  {
    if Broken(s, maxLen) || Unfinished(s, maxLen) {
      ms, t := [], s;
      assert EncodeAll(ms) + t == s;
    } else {
      var m, tail := FirstMessage(s, maxLen);
      var rest;
      rest, t := EveryStreamSplits(tail, maxLen);
      ms := [m] + rest;
      assert ms[1..] == rest;
      ConcatAssociates(Encode(m), EncodeAll(rest), t);
      if t == [] && rest == [] { assert tail == []; }
    }
  }

  lemma FirstMessage(s: seq<byte>, maxLen: u32) returns (m: Outgoing, tail: seq<byte>)
    requires !Broken(s, maxLen) && !Unfinished(s, maxLen)
    ensures Acceptable(m, maxLen) && s == Encode(m) + tail && |tail| < |s|
    ensures tail == [] ==> !IsEmptyData(m)
  {
    if s[0] == 0 {
      var len := ReadU32(s[5..9]);
      m, tail := DataMessage(ReadU32(s[1..5]), s[9..9 + len]), s[9 + len..];
      HeadOf(s);
    } else if s[0] == 1 {
      m, tail := StatusMessage(ReadU32(s[1..5])), s[5..];
      WriteAfterRead(s[1..5]);
    } else {
      m, tail := HeartbeatMessage, s[1..];
    }
  }

  /** A stream fails exactly when an unknown id or a refused header follows some acceptable messages in it. */
  lemma FailsExactly(s: seq<byte>, maxLen: u32)
    ensures Parse(s, maxLen).Failed() <==>
      exists ms: seq<Outgoing>, t: seq<byte> ::
        AllAcceptable(ms, maxLen) && s == EncodeAll(ms) + t && Broken(t, maxLen)
  {
    var ms, t := EveryStreamSplits(s, maxLen);
    EncodedThen(ms, t, maxLen);
    NoErrorAmong(ms);
    forall ns: seq<Outgoing>, u: seq<byte> |
      AllAcceptable(ns, maxLen) && s == EncodeAll(ns) + u && Broken(u, maxLen)
      ensures Parse(s, maxLen).Failed()
    {
      EncodedThen(ns, u, maxLen);
    }
  }

  lemma NoErrorAmong(ms: seq<Outgoing>)
    ensures !Parsed(ResultsOf(ms), []).Failed()
  {}

  /** Messages and then a broken one, in one chunk: a fresh ingester reports them and the error, and holds nothing. */
  method IngestBroken(bytes: seq<byte>, maxLen: u32, ghost ms: seq<Outgoing>, ghost t: seq<byte>)
    returns (results: seq<Result>, pending: Option<Incoming>)
    requires AllAcceptable(ms, maxLen) && Broken(t, maxLen) && bytes == EncodeAll(ms) + t
    ensures results == ResultsOf(ms) + [Error(ErrorOf(t, maxLen))] && pending == None
  {
    hide Parse;
    hide EncodeAll;
    hide ResultsOf;
    hide ErrorOf;
    var ingester := new Ingester();
    EncodedThen(ms, t, maxLen);
    assert [] + bytes == bytes;
    ingester.TakeBytes(bytes, maxLen);
    results, pending := ingester.results, ingester.incomplete;
  }

  /** The bytes of every message, one by one; words are big-endian. */
  lemma MessageBytes(m: Outgoing)
    ensures match m
      case DataMessage(seqId, bytes) =>
        && Encode(m)[..1] == [0] && Word(Encode(m)[1..5]) == seqId
        && Word(Encode(m)[5..9]) == |bytes| % 0x1_0000_0000 && Encode(m)[9..] == bytes
      case StatusMessage(seqId) => |Encode(m)| == 5 && Encode(m)[..1] == [1] && Word(Encode(m)[1..]) == seqId
      case HeartbeatMessage => Encode(m) == [2]
  {
    match m
    case DataMessage(seqId, bytes) =>
      WordOf(seqId);
      WordOf(|bytes| % U32_COUNT);
      assert Encode(m)[1..5] == U32(seqId) && Encode(m)[5..9] == U32(|bytes| % U32_COUNT);
    case StatusMessage(seqId) =>
      WordOf(seqId);
      assert Encode(m)[1..] == U32(seqId);
    case HeartbeatMessage =>
  }
}
