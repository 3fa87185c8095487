/** The incremental parser of the TCP stream, and the encoder it undoes (rbtl-tcp ingester.rs, socket.rs). */
module StreamIngester {
  import opened Prelude
  import opened BigEndian

  const MSG_TYPE_DATA_ID: byte := 0
  const MSG_TYPE_STATUS_ID: byte := 1
  const MSG_TYPE_HEARTBEAT_ID: byte := 2
  const MSG_TYPE_DATA_HEAD_LEN: nat := 8
  const MSG_TYPE_STATUS_HEAD_LEN: nat := 4

  datatype ErrorKind = MessageTooBig(expectedLen: u32) | WrongMessageId(id: byte)

  datatype Result =
    | Data(seqId: u32, bytes: seq<byte>)
    | Heartbeat
    | SeqIdOk(seqId: u32)
    | Error(kind: ErrorKind)

  // ----- The reference: parsing a whole stream -----

  datatype Parsed = Parsed(results: seq<Result>, rest: seq<byte>)
  {
    /** Parsing stopped at an error, which is its last result. */
    predicate Failed() {
      results != [] && results[|results| - 1].Error?
    }
  }

  function Prepend(r: Result, p: Parsed): Parsed {
    Parsed([r] + p.results, p.rest)
  }

  /**
   * The messages of a stream up to the first error or the first incomplete message; `rest` starts
   * there. An empty data message counts as incomplete until another byte follows it.
   */
  function Parse(s: seq<byte>, maxLen: u32): Parsed {
    if s == [] then Parsed([], [])
    else if s[0] == MSG_TYPE_DATA_ID then
      if |s| < 9 then Parsed([], s)
      else
        var len := ReadU32(s[5..9]);
        if len > maxLen then Parsed([Error(MessageTooBig(len))], s)
        else if |s| == 9 || |s| < 9 + len then Parsed([], s)
        else Prepend(Data(ReadU32(s[1..5]), s[9..9 + len]), Parse(s[9 + len..], maxLen))
    else if s[0] == MSG_TYPE_STATUS_ID then
      if |s| < 5 then Parsed([], s)
      else Prepend(SeqIdOk(ReadU32(s[1..5])), Parse(s[5..], maxLen))
    else if s[0] == MSG_TYPE_HEARTBEAT_ID then Prepend(Heartbeat, Parse(s[1..], maxLen))
    else Parsed([Error(WrongMessageId(s[0]))], s)
  }

  lemma ParseNothing(maxLen: u32)
    ensures Parse([], maxLen) == Parsed([], [])
  {}

  lemma PrependFailed(r: Result, p: Parsed)
    requires !r.Error?
    ensures Prepend(r, p).Failed() <==> p.Failed()
  {
    if p.results != [] {
      assert Prepend(r, p).results[|p.results|] == p.results[|p.results| - 1];
    }
  }

  /** The stream starts with a complete, acceptable message. */
  predicate StartsComplete(s: seq<byte>, maxLen: u32) {
    var p := Parse(s, maxLen);
    p.results != [] && !p.results[0].Error?
  }

  /** The stream opens with the header of a data message that is longer than allowed. */
  predicate Refused(s: seq<byte>, maxLen: u32) {
    |s| >= 9 && s[0] == MSG_TYPE_DATA_ID && ReadU32(s[5..9]) > maxLen
  }

  /** The length of the first message of such a stream. */
  function FirstLength(s: seq<byte>, maxLen: u32): (n: nat)
    requires StartsComplete(s, maxLen)
    ensures 0 < n <= |s|
  {
    if s[0] == MSG_TYPE_DATA_ID then 9 + ReadU32(s[5..9])
    else if s[0] == MSG_TYPE_STATUS_ID then 5
    else 1
  }

  lemma FirstOf(s: seq<byte>, maxLen: u32)
    requires StartsComplete(s, maxLen)
    ensures Parse(s, maxLen) == Prepend(Parse(s, maxLen).results[0], Parse(s[FirstLength(s, maxLen)..], maxLen))
  {}

  lemma SameFirst(a: seq<byte>, b: seq<byte>, maxLen: u32)
    requires StartsComplete(a, maxLen)
    ensures StartsComplete(a + b, maxLen) && Parse(a + b, maxLen).results[0] == Parse(a, maxLen).results[0]
    ensures FirstLength(a + b, maxLen) == FirstLength(a, maxLen)
  {
    var s := a + b;
    assert s[0] == a[0];
    if a[0] == MSG_TYPE_DATA_ID {
      assert s[1..5] == a[1..5] && s[5..9] == a[5..9];
      var len := ReadU32(a[5..9]);
      assert s[9..9 + len] == a[9..9 + len];
    } else if a[0] == MSG_TYPE_STATUS_ID {
      assert s[1..5] == a[1..5];
    }
  }

  lemma StoppedAtOnce(a: seq<byte>, b: seq<byte>, maxLen: u32)
    requires !StartsComplete(a, maxLen)
    ensures Parse(a, maxLen).rest == a
    ensures Parse(a, maxLen).Failed() ==> Parse(a + b, maxLen).results == Parse(a, maxLen).results
    ensures !Parse(a, maxLen).Failed() ==> Parse(a, maxLen).results == []
  {
    var s := a + b;
    if a != [] {
      assert s[0] == a[0];
      if a[0] == MSG_TYPE_DATA_ID && |a| >= 9 {
        assert s[5..9] == a[5..9];
      }
    }
  }

  /** Parsing goes on from where it stopped. */
  function Continue(p: Parsed, b: seq<byte>, maxLen: u32): Parsed {
    var q := Parse(p.rest + b, maxLen);
    Parsed(p.results + q.results, q.rest)
  }

  lemma ContinuePrepend(r: Result, p: Parsed, b: seq<byte>, maxLen: u32)
    ensures Continue(Prepend(r, p), b, maxLen) == Prepend(r, Continue(p, b, maxLen))
  {}

  /**
   * Parsing a longer stream goes on from where the shorter one stopped, unless that was an error:
   * then it finds the same results.
   */
  lemma {:induction false} ParseConcat(a: seq<byte>, b: seq<byte>, maxLen: u32)
    ensures !Parse(a, maxLen).Failed() ==> Parse(a + b, maxLen) == Continue(Parse(a, maxLen), b, maxLen)
    ensures Parse(a, maxLen).Failed() ==> Parse(a + b, maxLen).results == Parse(a, maxLen).results
    decreases |a|
  {
    if !StartsComplete(a, maxLen) {
      StoppedAtOnce(a, b, maxLen);
    } else {
      var n, r := FirstLength(a, maxLen), Parse(a, maxLen).results[0];
      var p := Parse(a[n..], maxLen);
      ParseConcat(a[n..], b, maxLen);
      SameFirst(a, b, maxLen);
      FirstOf(a, maxLen);
      FirstOf(a + b, maxLen);
      assert (a + b)[n..] == a[n..] + b;
      PrependFailed(r, p);
      ContinuePrepend(r, p, b, maxLen);
    }
  }

  // ----- The incremental parser -----

  datatype Incoming =
    | Bytes(held: seq<byte>)
    | Message(waiting: seq<byte>, expectedLen: u32, seqId: u32)

  /** The pending state that stands for the unparsed rest of a stream without an error. */
  function PendingOf(rest: seq<byte>): Option<Incoming> {
    if rest == [] then None
    else if rest[0] == MSG_TYPE_DATA_ID && |rest| >= 9
      then Some(Message(rest[9..], ReadU32(rest[5..9]), ReadU32(rest[1..5])))
    else Some(Bytes(rest))
  }

  class Ingester {
    var incomplete: Option<Incoming>
    var results: seq<Result>

    /**
     * What bounds the held bytes in every reachable state, after errors too: a cut header is at most
     * nine bytes and a pending message is not complete, unless it is empty.
     */
    ghost predicate Valid()
      reads this
    {
      match incomplete
      case None => true
      case Some(Bytes(held)) =>
        held != [] && ((held[0] == MSG_TYPE_DATA_ID && |held| <= 9) || (held[0] == MSG_TYPE_STATUS_ID && |held| <= 4))
      case Some(Message(waiting, expectedLen, _)) => |waiting| < expectedLen || (waiting == [] && expectedLen == 0)
    }

    /** A pending message was accepted under this limit. */
    predicate Within(maxLen: u32)
      reads this
    {
      incomplete.Some? && incomplete.value.Message? ==> incomplete.value.expectedLen <= maxLen
    }

    /** The bytes taken in but not yet turned into results. */
    ghost function Held(): seq<byte>
      reads this
    {
      match incomplete
      case None => []
      case Some(Bytes(held)) => held
      case Some(Message(waiting, expectedLen, seqId)) => DataHead(seqId, expectedLen) + waiting
    }

    /** Calls on the same bytes go through at most two states: a full header, then an empty message. */
    ghost function Rank(): nat
      reads this
    {
      match incomplete
      case Some(Bytes(held)) => if |held| == 9 then 2 else 0
      case Some(Message(_, expectedLen, _)) => if expectedLen == 0 then 1 else 0
      case None => 0
    }

    constructor ()
      ensures Valid() && incomplete == None && results == []
    {
      incomplete := None;
      results := [];
    }

    /** Everything after `before` results has been parsed from `s`; `heldBefore` was held then. */
    ghost predicate Parsing(before: seq<Result>, heldBefore: seq<byte>, s: seq<byte>, maxLen: u32)
      reads this
    {
      && results == before + Parse(s, maxLen).results && Held() == Kept(Parse(s, maxLen), heldBefore)
      && (!Parse(s, maxLen).Failed() ==> Settled())
    }

    /** A full header is not left unread; only an error leaves one. */
    predicate Settled()
      reads this
    {
      incomplete.Some? && incomplete.value.Bytes? ==> |incomplete.value.held| < 9
    }

    /** Then the pending state is determined by the bytes held. */
    lemma PendingDetermined()
      requires Valid() && Settled()
      ensures incomplete == PendingOf(Held())
    {
      match incomplete
      case Some(Message(waiting, expectedLen, seqId)) => HeadRead(seqId, expectedLen, waiting);
      case _ =>
    }

    /** A whole data header is held although the limit refuses its length. */
    predicate Stuck(maxLen: u32)
      reads this
    {
      incomplete.Some? && incomplete.value.Bytes? && Refused(incomplete.value.held, maxLen)
    }

    /** A chunk leaves such a header behind exactly when it completes, or meets, one that came in pieces. */
    lemma StuckExactly(before: seq<Result>, held: seq<byte>, bytes: seq<byte>, maxLen: u32)
      requires Valid() && Within(maxLen) && Parsing(before, held, held + bytes, maxLen)
      ensures Stuck(maxLen) <==> held != [] && Refused(held + bytes, maxLen)
    {
      var s := held + bytes;
      var p := Parse(s, maxLen);
      if p.Failed() && Held() != [] {
        if StartsComplete(s, maxLen) { FirstOf(s, maxLen); }
        assert p.rest == s && Held() == s[..9];
        if incomplete.value.Message? {
          HeadRead(incomplete.value.seqId, incomplete.value.expectedLen, incomplete.value.waiting);
        } else {
          assert s[..9][5..9] == s[5..9];
        }
      } else if Refused(s, maxLen) {
        assert p == Parsed([Error(MessageTooBig(ReadU32(s[5..9])))], s);
      }
    }

    /**
     * Takes one chunk of the stream. Under one limit the results are those of parsing the held bytes
     * and the chunk at once, and the held bytes are the unparsed rest. After an error the rest of the
     * chunk is dropped, but a header that was already held stays, now complete: every further chunk
     * then yields the same error once more, and nothing else.
     */
    method TakeBytes(bytes: seq<byte>, maxLen: u32)
      requires Valid()
      modifies this
      ensures Valid() && (old(Within(maxLen)) ==> Within(maxLen))
      ensures old(results) <= results
      ensures bytes == [] ==> results == old(results) && incomplete == old(incomplete)
      ensures bytes != [] && old(Within(maxLen)) ==> Parsing(old(results), old(Held()), old(Held()) + bytes, maxLen)
      ensures bytes != [] && old(Stuck(maxLen)) ==>
        && incomplete == old(incomplete)
        && results == old(results) + [Error(MessageTooBig(ReadU32(old(incomplete).value.held[5..9])))]
      decreases |bytes|, Rank(), 2
    {
      if |bytes| == 0 {
        return;
      }
      match incomplete
      case None =>
        assert [] + bytes == bytes;
        TakeFresh(bytes, maxLen);
      case Some(Bytes(held)) =>
        ghost var before, stuck := results, Stuck(maxLen);
        TakeHeader(held, bytes, maxLen);
        StuckExactly(before, held, bytes, maxLen);
        assert stuck ==> (held + bytes)[..9] == held && (held + bytes)[5..9] == held[5..9];
      case Some(Message(waiting, expectedLen, seqId)) =>
        TakeMessage(waiting, expectedLen, seqId, bytes, maxLen);
    }

    /** Pushes a result and goes on with the rest of the chunk. */
    method PushAndGoOn(r: Result, tail: seq<byte>, maxLen: u32)
      requires !r.Error?
      modifies this
      ensures Valid() && Within(maxLen)
      ensures old(results) <= results
      ensures forall h: seq<byte>, s: seq<byte> ::
        Parse(s, maxLen) == Prepend(r, Parse(tail, maxLen)) ==> Parsing(old(results), h, s, maxLen)
      decreases |tail|, 0, 3
    {
      hide Parse;
      ghost var before := results;
      ParseNothing(maxLen);
      results := results + [r];
      incomplete := None;
      TakeBytes(tail, maxLen);
      assert [] + tail == tail;
      KeptAfter(r, Parse(tail, maxLen));
      PrependFailed(r, Parse(tail, maxLen));
      assert before + [r] + Parse(tail, maxLen).results == before + Prepend(r, Parse(tail, maxLen)).results;
    }

    /** Starts on the data message whose header opens `s`. */
    method StartMessage(d: Incoming, tail: seq<byte>, maxLen: u32, ghost s: seq<byte>)
      requires |s| >= 9 && s[0] == MSG_TYPE_DATA_ID && tail == s[9..]
      requires d == Message([], ReadU32(s[5..9]), ReadU32(s[1..5])) && d.expectedLen <= maxLen
      modifies this
      ensures Valid() && Within(maxLen)
      ensures old(results) <= results
      ensures forall h: seq<byte> :: Parsing(old(results), h, s, maxLen)
      decreases |tail|, 1, 3
    {
      incomplete := Some(d);
      HeadOf(s);
      assert Held() + tail == s;
      TakeBytes(tail, maxLen);
      NoErrorFirst(s, maxLen);
      assert tail == [] ==> s[..9] == s;
    }

    /** The branch without anything pending. */
    method TakeFresh(bytes: seq<byte>, maxLen: u32)
      requires incomplete == None && bytes != []
      modifies this
      ensures Valid() && Within(maxLen)
      ensures old(results) <= results
      ensures Parsing(old(results), [], bytes, maxLen)
      decreases |bytes|, 0, 1
    {
      var id := bytes[0];
      var headless := bytes[1..];
      if id == MSG_TYPE_DATA_ID {
        if |headless| < MSG_TYPE_DATA_HEAD_LEN {
          incomplete := Some(Bytes(bytes));
        } else {
          var head, tail := headless[..MSG_TYPE_DATA_HEAD_LEN], headless[MSG_TYPE_DATA_HEAD_LEN..];
          assert head[..4] == bytes[1..5] && head[4..8] == bytes[5..9];
          var d := NewIncompleteData(head, maxLen);
          if d.None? {
            results := results + [Error(MessageTooBig(ReadU32(head[4..8])))];
          } else {
            StartMessage(d.value, tail, maxLen, bytes);
          }
        }
      } else if id == MSG_TYPE_STATUS_ID {
        if |headless| < MSG_TYPE_STATUS_HEAD_LEN {
          incomplete := Some(Bytes(bytes));
        } else {
          var head, tail := headless[..MSG_TYPE_STATUS_HEAD_LEN], headless[MSG_TYPE_STATUS_HEAD_LEN..];
          assert head == bytes[1..5] && tail == bytes[5..];
          PushAndGoOn(SeqIdOk(ReadU32(head)), tail, maxLen);
        }
      } else if id == MSG_TYPE_HEARTBEAT_ID {
        PushAndGoOn(Heartbeat, headless, maxLen);
      } else {
        results := results + [Error(WrongMessageId(id))];
      }
    }

    /** The branch with a cut header. Its last branch, a header with another id, is never reached. */
    method TakeHeader(held: seq<byte>, bytes: seq<byte>, maxLen: u32)
      requires Valid() && incomplete == Some(Bytes(held)) && bytes != []
      modifies this
      ensures Valid() && Within(maxLen)
      ensures old(results) <= results
      ensures Parsing(old(results), held, held + bytes, maxLen)
      decreases |bytes|, if |held| == 9 then 2 else 0, 1
    {
      var s := held + bytes;
      if held[0] == MSG_TYPE_DATA_ID {
        var need := MSG_TYPE_DATA_HEAD_LEN - (|held| - 1);
        if |bytes| < need {
          incomplete := Some(Bytes(s));
        } else {
          var whole, tail := held + bytes[..need], bytes[need..];
          assert whole == s[..9] && tail == s[9..];
          assert whole[1..][..4] == s[1..5] && whole[1..][4..8] == s[5..9];
          incomplete := Some(Bytes(whole));
          var d := NewIncompleteData(whole[1..], maxLen);
          if d.None? {
            results := results + [Error(MessageTooBig(ReadU32(whole[1..][4..8])))];
          } else {
            StartMessage(d.value, tail, maxLen, s);
          }
        }
      } else if held[0] == MSG_TYPE_STATUS_ID {
        var need := MSG_TYPE_STATUS_HEAD_LEN - (|held| - 1);
        if |bytes| < need {
          incomplete := Some(Bytes(s));
        } else {
          var whole, tail := held + bytes[..need], bytes[need..];
          assert whole[1..] == s[1..5] && tail == s[5..];
          PushAndGoOn(SeqIdOk(ReadU32(whole[1..])), tail, maxLen);
        }
      } else {
        assert false;
      }
    }

    /** The branch with a pending data message. */
    method TakeMessage(waiting: seq<byte>, expectedLen: u32, seqId: u32, bytes: seq<byte>, maxLen: u32)
      requires Valid() && incomplete == Some(Message(waiting, expectedLen, seqId)) && bytes != []
      modifies this
      ensures Valid() && (expectedLen <= maxLen ==> Within(maxLen))
      ensures old(results) <= results
      ensures expectedLen <= maxLen ==>
        var held := DataHead(seqId, expectedLen) + waiting;
        Parsing(old(results), held, held + bytes, maxLen)
      decreases |bytes|, if expectedLen == 0 then 1 else 0, 1
    {
      ghost var s := DataHead(seqId, expectedLen) + waiting + bytes;
      ConcatAssociates(DataHead(seqId, expectedLen), waiting, bytes);
      HeadRead(seqId, expectedLen, waiting + bytes);
      var missing := expectedLen - |waiting|;
      var taken := if missing <= |bytes| then missing else |bytes|;
      var all := waiting + bytes[..taken];
      if |all| == expectedLen {
        Filled(DataHead(seqId, expectedLen), waiting, bytes, taken);
        PushAndGoOn(Data(seqId, all), bytes[taken..], maxLen);
      } else {
        assert all == waiting + bytes;
        incomplete := Some(Message(all, expectedLen, seqId));
      }
    }
  }

  lemma Filled(head: seq<byte>, waiting: seq<byte>, bytes: seq<byte>, taken: nat)
    requires taken <= |bytes|
    ensures var (s, n) := (head + waiting + bytes, |head| + |waiting| + taken);
      s[|head|..n] == waiting + bytes[..taken] && s[n..] == bytes[taken..]
  {
    var s, all, tail := head + waiting + bytes, waiting + bytes[..taken], bytes[taken..];
    assert s == (head + all) + tail by {
      assert bytes == bytes[..taken] + tail;
      ConcatAssociates(head, waiting, bytes[..taken]);
      ConcatAssociates(head + waiting, bytes[..taken], tail);
    }
    assert |head + all| == |head| + |waiting| + taken;
    assert s[..|head + all|] == head + all;
  }

  /** What is held once a chunk has been parsed together with the bytes held before. */
  function Kept(p: Parsed, heldBefore: seq<byte>): seq<byte> {
    if !p.Failed() then p.rest
    else if heldBefore != [] && |p.results| == 1 && |p.rest| >= 9 then p.rest[..9]
    else []
  }

  /** After a result, nothing held before matters any more. */
  lemma KeptAfter(r: Result, p: Parsed)
    requires !r.Error?
    ensures forall h: seq<byte> :: Kept(Prepend(r, p), h) == Kept(p, [])
  {
    PrependFailed(r, p);
  }

  /** A stream that opens with an acceptable data header does not fail on its first message. */
  lemma NoErrorFirst(s: seq<byte>, maxLen: u32)
    requires |s| >= 9 && s[0] == MSG_TYPE_DATA_ID && ReadU32(s[5..9]) <= maxLen
    ensures Parse(s, maxLen).Failed() ==> |Parse(s, maxLen).results| > 1
  {}

  function DataHead(seqId: u32, len: u32): (b: seq<byte>)
    ensures |b| == 9
  {
    [MSG_TYPE_DATA_ID] + U32(seqId) + U32(len)
  }

  lemma HeadOf(s: seq<byte>)
    requires |s| >= 9 && s[0] == MSG_TYPE_DATA_ID
    ensures DataHead(ReadU32(s[1..5]), ReadU32(s[5..9])) == s[..9]
  {
    WriteAfterRead(s[1..5]);
    WriteAfterRead(s[5..9]);
  }

  lemma HeadRead(seqId: u32, len: u32, tail: seq<byte>)
    ensures var s := DataHead(seqId, len) + tail;
      s[0] == MSG_TYPE_DATA_ID && ReadU32(s[1..5]) == seqId && ReadU32(s[5..9]) == len && s[9..] == tail
  {
    var s := DataHead(seqId, len) + tail;
    ReadAfterWrite(seqId);
    ReadAfterWrite(len);
    assert s[1..5] == U32(seqId) && s[5..9] == U32(len);
  }

  /** A pending message from the eight bytes of its header; `None` when it is longer than allowed. */
  function NewIncompleteData(bytes: seq<byte>, maxLen: u32): (r: Option<Incoming>)
    requires |bytes| == 8
    ensures r.None? <==> ReadU32(bytes[4..8]) > maxLen
  {
    if ReadU32(bytes[4..8]) > maxLen then None
    else Some(Message([], ReadU32(bytes[4..8]), ReadU32(bytes[..4])))
  }
}
