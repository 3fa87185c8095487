/** Two sockets joined by two byte streams that keep order: what a receipt means. */
module TcpLink {
  import opened Prelude
  import opened BigEndian
  import opened StreamIngester
  import opened TcpStream
  import opened TcpSocket

  /**
   * One end with its history: the messages it sent (`sent[n]` has true index `n`), everything it wrote
   * (`out`), how far it read the other's stream, and the results it handled (`got`).
   */
  datatype Side = Side(socket: Endpoint, held: seq<byte>, sent: seq<seq<byte>>, out: seq<Outgoing>, read: nat,
                       got: seq<Result>)

  datatype Link = Link(a: Side, b: Side)

  datatype Step = SendData(bytes: seq<byte>) | SendHeartbeat | Read(n: nat)

  const FRESH := Side(Endpoint(true, 0, None, Connected, [], []), [], [], [], 0, [])

  /** The acknowledgements written for the data among some results. */
  function StatusesFor(rs: seq<Result>): seq<Outgoing> {
    if rs == [] then []
    else
      var last := rs[|rs| - 1];
      StatusesFor(rs[..|rs| - 1]) + (if last.Data? then [StatusMessage(last.seqId)] else [])
  }

  /** The results of the chunk a side reads. */
  ghost function ChunkParsed(x: Side, y: Side, n: nat, maxLenX: u32): Parsed
    requires x.read + n <= |y.socket.written|
  {
    Parse(x.held + y.socket.written[x.read..x.read + n], maxLenX)
  }

  /** Side `x` takes a step; `y` is the other side. */
  ghost predicate SideStep(x: Side, y: Side, step: Step, maxLenX: u32, x': Side) {
    match step
    case SendData(bytes) =>
      x' == x.(socket := AfterSend(x.socket, bytes), sent := x.sent + [bytes], out := x.out
        + [DataMessage(x.socket.outSeqId, bytes)])
    case SendHeartbeat =>
      x' == x.(socket := x.socket.Writes(Encode(HeartbeatMessage)), out := x.out + [HeartbeatMessage])
    case Read(n) =>
      && 0 < n && x.read + n <= |y.socket.written|
      && var p := ChunkParsed(x, y, n, maxLenX);
         x' == x.(socket := HandleAll(x.socket, p.results), held := Kept(p, x.held), read := x.read + n,
                  got := x.got + p.results, out := x.out + StatusesFor(p.results))
  }

  /** The step sends no longer message than its end may. */
  predicate StepSends(step: (bool, Step), lenA: u32, lenB: u32) {
    step.1.SendData? ==> |step.1.bytes| <= if step.0 then lenA else lenB
  }

  /** One end takes a step and the other only keeps its state. */
  ghost predicate LinkStep(l: Link, byA: bool, step: Step, maxLenA: u32, maxLenB: u32, l': Link) {
    if byA then l'.b == l.b && SideStep(l.a, l.b, step, maxLenA, l'.a)
    else l'.a == l.a && SideStep(l.b, l.a, step, maxLenB, l'.b)
  }

  /** `maxLenA` and `maxLenB` are the longest messages the two ends accept. */
  datatype Run = Run(states: seq<Link>, steps: seq<(bool, Step)>, maxLenA: u32, maxLenB: u32)
  {
    ghost predicate Valid() {
      && |states| == |steps| + 1
      && states[0] == Link(FRESH, FRESH)
      && forall k :: 0 <= k < |steps| ==> StepsTo(k)
    }

    /** The longest messages the two ends send. */
    predicate Sends(lenA: u32, lenB: u32) {
      forall k :: 0 <= k < |steps| ==> StepSends(steps[k], lenA, lenB)
    }

    ghost predicate StepsTo(k: nat)
      requires k < |steps| < |states|
    {
      LinkStep(states[k], steps[k].0, steps[k].1, maxLenA, maxLenB, states[k + 1])
    }
  }

  // ----- Counting and numbering -----

  function DataCount(rs: seq<Result>): nat {
    if rs == [] then 0 else DataCount(rs[..|rs| - 1]) + (if rs[|rs| - 1].Data? then 1 else 0)
  }

  function OkCount(rs: seq<Result>): nat {
    if rs == [] then 0 else OkCount(rs[..|rs| - 1]) + (if rs[|rs| - 1].SeqIdOk? then 1 else 0)
  }

  /** The data among the results are the first messages of `sent`, numbered modulo 2^32. */
  predicate DataNumbered(rs: seq<Result>, sent: seq<seq<byte>>) {
    rs == [] ||
    var (front, last) := (rs[..|rs| - 1], rs[|rs| - 1]);
    && DataNumbered(front, sent)
    && (last.Data? ==> DataCount(front) < |sent| && last == Data(DataCount(front) % U32_COUNT, sent[DataCount(front)]))
  }

  /** The acknowledgements among the results count up from zero, modulo 2^32. */
  predicate OksNumbered(rs: seq<Result>) {
    rs == [] ||
    var (front, last) := (rs[..|rs| - 1], rs[|rs| - 1]);
    OksNumbered(front) && (last.SeqIdOk? ==> last.seqId == OkCount(front) % U32_COUNT)
  }

  lemma {:induction false} PrefixFacts(p: seq<Result>, rs: seq<Result>, sent: seq<seq<byte>>)
    requires p <= rs && DataNumbered(rs, sent) && OksNumbered(rs)
    ensures DataNumbered(p, sent) && OksNumbered(p)
    ensures DataCount(p) <= DataCount(rs) && OkCount(p) <= OkCount(rs)
    decreases |rs|
  {
    if p != rs {
      PrefixFacts(p, rs[..|rs| - 1], sent);
    }
  }

  lemma {:induction false} MoreSent(rs: seq<Result>, sent: seq<seq<byte>>, bytes: seq<byte>)
    requires DataNumbered(rs, sent)
    ensures DataNumbered(rs, sent + [bytes])
  {
    if rs != [] { MoreSent(rs[..|rs| - 1], sent, bytes); }
  }

  /** Appending one message to what was written. */
  lemma OutNext(out: seq<Outgoing>, m: Outgoing)
    ensures ResultsOf(out + [m]) == ResultsOf(out) + [ResultOf(m)]
    ensures EncodeAll(out + [m]) == EncodeAll(out) + Encode(m)
  {
    EncodeSnoc(out, m);
  }

  lemma {:induction false} EncodeSnoc(out: seq<Outgoing>, m: Outgoing)
    ensures EncodeAll(out + [m]) == EncodeAll(out) + Encode(m)
  {
    if out == [] {
      assert out + [m] == [m] && EncodeAll([m][1..]) == [];
    } else {
      EncodeSnoc(out[1..], m);
      assert (out + [m])[1..] == out[1..] + [m];
      ConcatAssociates(Encode(out[0]), EncodeAll(out[1..]), Encode(m));
    }
  }

  lemma CountNext(rs: seq<Result>, r: Result, sent: seq<seq<byte>>)
    ensures DataCount(rs + [r]) == DataCount(rs) + if r.Data? then 1 else 0
    ensures OkCount(rs + [r]) == OkCount(rs) + if r.SeqIdOk? then 1 else 0
    ensures DataNumbered(rs + [r], sent) <==>
      (DataNumbered(rs, sent)
        && (r.Data? ==> DataCount(rs) < |sent| && r == Data(DataCount(rs) % U32_COUNT, sent[DataCount(rs)])))
    ensures OksNumbered(rs + [r]) <==> (OksNumbered(rs) && (r.SeqIdOk? ==> r.seqId == OkCount(rs) % U32_COUNT))
  {
    assert (rs + [r])[..|rs|] == rs;
  }

  // ----- The invariant -----

  /**
   * A stream is well formed, acceptable to the other end, and numbers its data (`sent`) and its
   * `acked` acknowledgements in order.
   */
  ghost predicate Writes(written: seq<byte>, out: seq<Outgoing>, sent: seq<seq<byte>>, acked: nat, maxLen: u32) {
    && written == EncodeAll(out) && AllAcceptable(out, maxLen)
    && Numbers(ResultsOf(out), sent, acked)
  }

  ghost predicate Numbers(rs: seq<Result>, sent: seq<seq<byte>>, acked: nat) {
    DataNumbered(rs, sent) && DataCount(rs) == |sent| && OksNumbered(rs) && OkCount(rs) == acked
  }

  ghost predicate WriterInv(x: Side, maxLenY: u32) {
    && x.socket.ready && Writes(x.socket.written, x.out, x.sent, DataCount(x.got), maxLenY)
    && x.socket.outSeqId == |x.sent| % U32_COUNT
  }

  /** Writing the next message of its kind keeps the stream well formed. */
  lemma WriteNext(written: seq<byte>, out: seq<Outgoing>, sent: seq<seq<byte>>, acked: nat, maxLen: u32, m: Outgoing)
    requires Writes(written, out, sent, acked, maxLen) && Acceptable(m, maxLen)
    requires m.DataMessage? ==> m.seqId == |sent| % U32_COUNT
    requires m.StatusMessage? ==> m.seqId == acked % U32_COUNT
    ensures Writes(written + Encode(m), out + [m], if m.DataMessage? then sent + [m.bytes] else sent,
                   if m.StatusMessage? then acked + 1 else acked, maxLen)
  {
    OutNext(out, m);
    NumberNext(ResultsOf(out), sent, acked, m);
  }

  lemma NumberNext(rs: seq<Result>, sent: seq<seq<byte>>, acked: nat, m: Outgoing)
    requires Numbers(rs, sent, acked)
    requires m.DataMessage? ==> m.seqId == |sent| % U32_COUNT
    requires m.StatusMessage? ==> m.seqId == acked % U32_COUNT
    ensures Numbers(rs + [ResultOf(m)], if m.DataMessage? then sent + [m.bytes] else sent,
                    if m.StatusMessage? then acked + 1 else acked)
  {
    var sent' := if m.DataMessage? then sent + [m.bytes] else sent;
    if m.DataMessage? { MoreSent(rs, sent, m.bytes); }
    CountNext(rs, ResultOf(m), sent');
  }

  /** What `x` handled is the parse of what it has read of the other's stream. */
  ghost predicate ReaderInv(x: Side, y: Side, maxLenX: u32) {
    && x.read <= |y.socket.written|
    && Parse(y.socket.written[..x.read], maxLenX) == Parsed(x.got, x.held)
  }

  /** Events and the last acknowledged id reflect what was handled; `sent` is what the other end sent. */
  ghost predicate SocketInv(socket: Endpoint, got: seq<Result>, sent: seq<seq<byte>>) {
    && socket.status == Connected
    && DataCount(got) == |socket.events| <= |sent|
    && (forall n :: 0 <= n < |socket.events| ==> socket.events[n] == DataEvent(sent[n]))
    && socket.lastOk == (if OkCount(got) == 0 then None else Some((OkCount(got) - 1) % U32_COUNT))
  }

  ghost predicate SideInv(x: Side, y: Side, maxLenX: u32, maxLenY: u32) {
    WriterInv(x, maxLenY) && ReaderInv(x, y, maxLenX) && SocketInv(x.socket, x.got, y.sent)
  }

  ghost predicate Inv(l: Link, maxLenA: u32, maxLenB: u32) {
    SideInv(l.a, l.b, maxLenA, maxLenB) && SideInv(l.b, l.a, maxLenB, maxLenA)
  }

  /** Part of what a well-numbered stream says is well numbered too. */
  lemma PrefixNumbered(ms: seq<Outgoing>, sent: seq<seq<byte>>, acked: nat, got: seq<Result>)
    requires Numbers(ResultsOf(ms), sent, acked) && got <= ResultsOf(ms)
    ensures DataNumbered(got, sent) && OksNumbered(got) && OkCount(got) <= acked
    ensures forall i :: 0 <= i < |got| ==> !got[i].Error?
  {
    PrefixFacts(got, ResultsOf(ms), sent);
    assert forall i :: 0 <= i < |got| ==> got[i] == ResultsOf(ms)[i];
  }

  /** Handling one more result keeps the socket in step with what was handled. */
  lemma HandledNext(socket: Endpoint, got: seq<Result>, r: Result, sent: seq<seq<byte>>)
    requires SocketInv(socket, got, sent) && DataNumbered(got + [r], sent) && OksNumbered(got + [r]) && !r.Error?
    ensures SocketInv(Handle(socket, r), got + [r], sent)
  {
    CountNext(got, r, sent);
  }

  lemma {:induction false} HandledKeeps(socket: Endpoint, got: seq<Result>, rs: seq<Result>, sent: seq<seq<byte>>)
    requires SocketInv(socket, got, sent) && DataNumbered(got + rs, sent) && OksNumbered(got + rs)
    requires forall i :: 0 <= i < |rs| ==> !rs[i].Error?
    ensures SocketInv(HandleAll(socket, rs), got + rs, sent)
    decreases |rs|
  {
    if rs == [] {
      assert got + rs == got;
    } else {
      var front, last := rs[..|rs| - 1], rs[|rs| - 1];
      assert got + rs == (got + front) + [last];
      PrefixFacts(got + front, got + rs, sent);
      HandledKeeps(socket, got, front, sent);
      HandledNext(HandleAll(socket, front), got + front, last, sent);
    }
  }

  /** What handling one more result adds to the stream keeps the acknowledgements counting. */
  lemma StatusNext(socket: Endpoint, out: seq<Outgoing>, sent: seq<seq<byte>>, got: seq<Result>, r: Result,
                   maxLen: u32, sentY: seq<seq<byte>>)
    requires socket.ready
    requires Writes(socket.written, out, sent, DataCount(got), maxLen) && DataNumbered(got + [r], sentY) && !r.Error?
    ensures Writes(Handle(socket, r).written, if r.Data? then out + [StatusMessage(r.seqId)] else out, sent,
                   DataCount(got + [r]), maxLen)
  {
    CountNext(got, r, sentY);
    if r.Data? { WriteNext(socket.written, out, sent, DataCount(got), maxLen, StatusMessage(r.seqId)); }
  }

  lemma {:induction false} HandleKeeps(socket: Endpoint, rs: seq<Result>)
    ensures HandleAll(socket, rs).outSeqId == socket.outSeqId && HandleAll(socket, rs).ready == socket.ready
  {
    if rs != [] { HandleKeeps(socket, rs[..|rs| - 1]); }
  }

  lemma {:induction false} StatusesKeep(socket: Endpoint, out: seq<Outgoing>, sent: seq<seq<byte>>, got: seq<Result>,
                                        rs: seq<Result>,
                                        maxLen: u32, sentY: seq<seq<byte>>)
    requires socket.ready
    requires Writes(socket.written, out, sent, DataCount(got), maxLen)
    requires DataNumbered(got + rs, sentY) && OksNumbered(got + rs)
    requires forall i :: 0 <= i < |rs| ==> !rs[i].Error?
    ensures Writes(HandleAll(socket, rs).written, out + StatusesFor(rs), sent, DataCount(got + rs), maxLen)
    ensures HandleAll(socket, rs).outSeqId == socket.outSeqId && HandleAll(socket, rs).ready
    decreases |rs|
  {
    hide Writes;
    hide Handle;
    hide OksNumbered;
    hide DataNumbered;
    HandleKeeps(socket, rs);
    hide Parse;
    hide EncodeAll;
    hide Encode;
    if rs == [] {
      assert got + rs == got && out + StatusesFor(rs) == out;
    } else {
      var front, last := rs[..|rs| - 1], rs[|rs| - 1];
      assert got + rs == (got + front) + [last];
      PrefixFacts(got + front, got + rs, sentY);
      StatusesKeep(socket, out, sent, got, front, maxLen, sentY);
      HandleKeeps(socket, front);
      StatusNext(HandleAll(socket, front), out + StatusesFor(front), sent, got + front, last, maxLen, sentY);
      StatusesSnoc(out, rs);
    }
  }

  lemma StatusesSnoc(out: seq<Outgoing>, rs: seq<Result>)
    requires rs != []
    ensures var (front, last) := (rs[..|rs| - 1], rs[|rs| - 1]);
      out + StatusesFor(rs) == if last.Data? then (out + StatusesFor(front)) + [StatusMessage(last.seqId)]
        else out + StatusesFor(front)
  {
  }

  lemma ReadKeepsInv(x: Side, y: Side, step: Step, maxLenX: u32, maxLenY: u32, x': Side)
    requires SideInv(x, y, maxLenX, maxLenY) && WriterInv(y, maxLenX)
    requires step.Read? && SideStep(x, y, step, maxLenX, x')
    ensures SideInv(x', y, maxLenX, maxLenY)
  {
    var rs := ChunkParsed(x, y, step.n, maxLenX).results;
    ReadKeepsReader(x, y, step, maxLenX, maxLenY, x');
    HandledKeeps(x.socket, x.got, rs, y.sent);
    StatusesKeep(x.socket, x.out, x.sent, x.got, rs, maxLenY, y.sent);
  }

  lemma ReadKeepsReader(x: Side, y: Side, step: Step, maxLenX: u32, maxLenY: u32, x': Side)
    requires ReaderInv(x, y, maxLenX) && WriterInv(y, maxLenX)
    requires step.Read? && SideStep(x, y, step, maxLenX, x')
    ensures ReaderInv(x', y, maxLenX) && DataNumbered(x'.got, y.sent) && OksNumbered(x'.got)
    ensures var rs := ChunkParsed(x, y, step.n, maxLenX).results; forall i :: 0 <= i < |rs| ==> !rs[i].Error?
  {
    hide Parse;
    hide EncodeAll;
    var w, q := y.socket.written, ChunkParsed(x, y, step.n, maxLenX);
    assert w[..x'.read] == w[..x.read] + w[x.read..x.read + step.n];
    ReadOn(y.out, w[..x.read], w[x.read..x.read + step.n], maxLenX, Parsed(x.got, x.held), q);
    PrefixNumbered(y.out, y.sent, DataCount(y.got), x'.got);
    TailFree(x.got, q.results);
  }

  lemma TailFree(got: seq<Result>, rs: seq<Result>)
    requires forall i :: 0 <= i < |got + rs| ==> !(got + rs)[i].Error?
    ensures forall i :: 0 <= i < |rs| ==> !rs[i].Error?
  {
    assert forall i :: 0 <= i < |rs| ==> rs[i] == (got + rs)[|got| + i];
  }

  lemma WriteKeepsInv(x: Side, y: Side, step: Step, maxLenX: u32, maxLenY: u32, x': Side)
    requires SideInv(x, y, maxLenX, maxLenY)
    requires step.SendData? ==> |step.bytes| <= maxLenY
    requires !step.Read? && SideStep(x, y, step, maxLenX, x')
    ensures SideInv(x', y, maxLenX, maxLenY)
  {
    hide Parse;
    hide EncodeAll;
    hide Encode;
    WriteKeepsWriter(x, y, step, maxLenX, maxLenY, x');
    assert ReaderInv(x', y, maxLenX) && SocketInv(x'.socket, x'.got, y.sent);
  }

  lemma WriteKeepsWriter(x: Side, y: Side, step: Step, maxLenX: u32, maxLenY: u32, x': Side)
    requires WriterInv(x, maxLenY)
    requires step.SendData? ==> |step.bytes| <= maxLenY
    requires !step.Read? && SideStep(x, y, step, maxLenX, x')
    ensures WriterInv(x', maxLenY)
  {
    var m := if step.SendData? then DataMessage(x.socket.outSeqId, step.bytes) else HeartbeatMessage;
    WriteNext(x.socket.written, x.out, x.sent, DataCount(x.got), maxLenY, m);
    NextModulo(|x.sent|);
  }

  lemma NextModulo(n: nat)
    ensures (n % U32_COUNT + 1) % U32_COUNT == (n + 1) % U32_COUNT
  {
  }

  /** The other end's view survives: the stream only grows, and so does what was sent. */
  lemma OtherSideKeeps(x: Side, y: Side, step: Step, maxLenX: u32, maxLenY: u32, x': Side)
    requires SideInv(y, x, maxLenY, maxLenX) && SideInv(x', y, maxLenX, maxLenY)
    requires SideStep(x, y, step, maxLenX, x')
    ensures SideInv(y, x', maxLenY, maxLenX)
  {
    WrittenGrows(x, y, step, maxLenX, maxLenY, x');
    assert x'.socket.written[..y.read] == x.socket.written[..y.read];
    assert forall n :: 0 <= n < |x.sent| ==> x'.sent[n] == x.sent[n];
  }

  lemma WrittenGrows(x: Side, y: Side, step: Step, maxLenX: u32, maxLenY: u32, x': Side)
    requires SideStep(x, y, step, maxLenX, x')
    ensures x.socket.written <= x'.socket.written && x.sent <= x'.sent
  {
    if step.Read? {
      HandleWrites(x.socket, ChunkParsed(x, y, step.n, maxLenX).results);
    }
  }

  lemma {:induction false} HandleWrites(e: Endpoint, rs: seq<Result>)
    ensures e.written <= HandleAll(e, rs).written
  {
    if rs != [] { HandleWrites(e, rs[..|rs| - 1]); }
  }

  lemma StepKeepsInv(x: Side, y: Side, step: Step, maxLenX: u32, maxLenY: u32, x': Side)
    requires SideInv(x, y, maxLenX, maxLenY) && SideInv(y, x, maxLenY, maxLenX)
    requires step.SendData? ==> |step.bytes| <= maxLenY
    requires SideStep(x, y, step, maxLenX, x')
    ensures SideInv(x', y, maxLenX, maxLenY) && SideInv(y, x', maxLenY, maxLenX)
  {
    if step.Read? {
      ReadKeepsInv(x, y, step, maxLenX, maxLenY, x');
    } else {
      WriteKeepsInv(x, y, step, maxLenX, maxLenY, x');
    }
    OtherSideKeeps(x, y, step, maxLenX, maxLenY, x');
  }

  lemma LinkKeepsInv(l: Link, byA: bool, step: Step, maxLenA: u32, maxLenB: u32, l': Link)
    requires Inv(l, maxLenA, maxLenB) && LinkStep(l, byA, step, maxLenA, maxLenB, l')
    requires StepSends((byA, step), maxLenB, maxLenA)
    ensures Inv(l', maxLenA, maxLenB)
  {
    if byA {
      StepKeepsInv(l.a, l.b, step, maxLenA, maxLenB, l'.a);
    } else {
      StepKeepsInv(l.b, l.a, step, maxLenB, maxLenA, l'.b);
    }
  }

  lemma StartInv(maxLenA: u32, maxLenB: u32)
    ensures Inv(Link(FRESH, FRESH), maxLenA, maxLenB)
  {
  }

  lemma RunStep(r: Run, k: nat)
    requires r.Valid() && k < |r.steps|
    ensures LinkStep(r.states[k], r.steps[k].0, r.steps[k].1, r.maxLenA, r.maxLenB, r.states[k + 1])
  {
    assert r.StepsTo(k);
  }

  lemma {:induction false} RunKeepsInv(r: Run, k: nat)
    requires r.Valid() && r.Sends(r.maxLenB, r.maxLenA) && k < |r.states|
    ensures Inv(r.states[k], r.maxLenA, r.maxLenB)
  {
    hide Inv;
    hide LinkStep;
    if k > 0 {
      var l, l' := r.states[k - 1], r.states[k];
      RunKeepsInv(r, k - 1);
      RunStep(r, k - 1);
      assert StepSends(r.steps[k - 1], r.maxLenB, r.maxLenA);
      LinkKeepsInv(l, r.steps[k - 1].0, r.steps[k - 1].1, r.maxLenA, r.maxLenB, l');
    } else {
      StartInv(r.maxLenA, r.maxLenB);
    }
  }

  // ----- Main results -----

  /** True indices far enough apart to fool the comparison are left out by this window. */
  predicate InWindow(m: int, n: int) {
    m - n <= 0x8000_0000 - 2 && n - m <= 0x8000_0000 + 1
  }

  /**
   * The wrapped comparison agrees with the true indices exactly in the window, among indices that are
   * less than 2^32 apart.
   */
  lemma ComparisonExactInWindow(m: nat, n: nat)
    requires -U32_COUNT < m - n < U32_COUNT
    ensures (IsReceived(Some(m % U32_COUNT), n % U32_COUNT) <==> n <= m) <==> InWindow(m, n)
  {
    WrappedDifference(m, n);
  }

  lemma WrappedDifference(m: nat, n: nat)
    requires -U32_COUNT < m - n < U32_COUNT
    ensures (m % U32_COUNT - n % U32_COUNT) % U32_COUNT == if n <= m then m - n else m - n + U32_COUNT
  {
    var d := (m / U32_COUNT) - (n / U32_COUNT);
    assert m - n == d * U32_COUNT + (m % U32_COUNT - n % U32_COUNT);
  }

  /** The comparison after `acked` acknowledgements. */
  lemma ReceivedIffAcked(acked: nat, n: nat)
    requires InWindow(acked - 1, n)
    ensures IsReceived(if acked == 0 then None else Some((acked - 1) % U32_COUNT), n % U32_COUNT) <==> n < acked
  {
    if acked > 0 { ComparisonExactInWindow(acked - 1, n); }
  }

  /**
   * Whether `x` takes its message of true index `n` for received is whether it handled more than `n`
   * acknowledgements, within the window; and if it does, `y` has queued that very message as its event
   * of the same index.
   */
  ghost predicate ReceiptSound(x: Side, y: Side, n: nat) {
    SoundFor(OkCount(x.got), x.socket.lastOk, x.sent, y.socket.events, n)
  }

  predicate SoundFor(acked: nat, lastOk: Option<u32>, sent: seq<seq<byte>>, events: seq<Event>, n: nat) {
    n < |sent| && InWindow(acked - 1, n) ==>
      && (IsReceived(lastOk, n % U32_COUNT) <==> n < acked)
      && (IsReceived(lastOk, n % U32_COUNT) ==> n < |events| && events[n] == DataEvent(sent[n]))
  }

  lemma ReceiptBetween(x: Side, y: Side, maxLenX: u32, maxLenY: u32, n: nat)
    requires SideInv(x, y, maxLenX, maxLenY) && SideInv(y, x, maxLenY, maxLenX)
    ensures ReceiptSound(x, y, n)
  {
    hide Parse;
    hide EncodeAll;
    PrefixParses(y.out, y.socket.written[..x.read], maxLenX);
    PrefixNumbered(y.out, y.sent, DataCount(y.got), x.got);
    SoundFromCounts(OkCount(x.got), x.socket.lastOk, x.sent, y.socket.events, n);
  }

  lemma SoundFromCounts(acked: nat, lastOk: Option<u32>, sent: seq<seq<byte>>, events: seq<Event>, n: nat)
    requires lastOk == if acked == 0 then None else Some((acked - 1) % U32_COUNT)
    requires acked <= |events| <= |sent| && forall i :: 0 <= i < |events| ==> events[i] == DataEvent(sent[i])
    ensures SoundFor(acked, lastOk, sent, events, n)
  {
    if InWindow(acked - 1, n) { ReceivedIffAcked(acked, n); }
  }

  /**
   * In every run in which neither end sends more than the other accepts, the wrapped receipt test refines
   * the true indices, at both ends.
   */
  lemma ReceiptRefinesIndices(r: Run, k: nat, n: nat)
    requires r.Valid() && r.Sends(r.maxLenB, r.maxLenA) && k < |r.states|
    ensures ReceiptSound(r.states[k].a, r.states[k].b, n) && ReceiptSound(r.states[k].b, r.states[k].a, n)
  {
    RunKeepsInv(r, k);
    ReceiptBetween(r.states[k].a, r.states[k].b, r.maxLenA, r.maxLenB, n);
    ReceiptBetween(r.states[k].b, r.states[k].a, r.maxLenB, r.maxLenA, n);
  }

  /** In every such run both ends stay connected, and their users see nothing but data. */
  lemma StaysConnected(r: Run, k: nat)
    requires r.Valid() && r.Sends(r.maxLenB, r.maxLenA) && k < |r.states|
    ensures r.states[k].a.socket.status == Connected && r.states[k].b.socket.status == Connected
    ensures forall e :: e in r.states[k].a.socket.events || e in r.states[k].b.socket.events ==> e.DataEvent?
  {
    RunKeepsInv(r, k);
  }

  // ----- Messages the other end does not accept -----

  /** In every run with these limits and these longest messages, receipts mean what they should at both ends. */
  ghost predicate ReceiptsSound(lenA: u32, lenB: u32, maxLenA: u32, maxLenB: u32) {
    forall r: Run, k: nat, n: nat ::
      r.Valid() && r.maxLenA == maxLenA && r.maxLenB == maxLenB && r.Sends(lenA, lenB) && k < |r.states| ==>
        ReceiptSound(r.states[k].a, r.states[k].b, n) && ReceiptSound(r.states[k].b, r.states[k].a, n)
  }

  function Pair(xIsA: bool, x: Side, y: Side): Link {
    if xIsA then Link(x, y) else Link(y, x)
  }

  lemma Extend(r: Run, byA: bool, step: Step, l: Link) returns (r': Run)
    requires r.Valid() && LinkStep(r.states[|r.steps|], byA, step, r.maxLenA, r.maxLenB, l)
    ensures r'.Valid() && r' == Run(r.states + [l], r.steps + [(byA, step)], r.maxLenA, r.maxLenB)
  {
    r' := Run(r.states + [l], r.steps + [(byA, step)], r.maxLenA, r.maxLenB);
    forall k | 0 <= k < |r'.steps| ensures r'.StepsTo(k) {
      if k < |r.steps| { assert r.StepsTo(k); }
    }
  }

  /** A message too long by one byte that reads, from its first byte on, as an acknowledgement of message 0. */
  function Misleading(limit: u32): (bytes: seq<byte>)
    ensures |bytes| == limit + 1
  {
    [1] + seq(limit, _ => 0)
  }

  function AfterSending(x: Side, bytes: seq<byte>): Side {
    x.(socket := AfterSend(x.socket, bytes), sent := x.sent + [bytes], out := x.out
      + [DataMessage(x.socket.outSeqId, bytes)])
  }

  /** The side after reading bytes that give just one result, which is no data, and leave nothing held. */
  function AfterReading(x: Side, n: nat, r: Result): Side {
    x.(socket := Handle(x.socket, r), held := [], read := x.read + n, got := x.got + [r])
  }

  lemma OneResult(x: Side, y: Side, n: nat, r: Result, maxLenX: u32)
    requires 0 < n && x.read + n <= |y.socket.written| && !r.Data?
    requires ChunkParsed(x, y, n, maxLenX).results == [r] && Kept(ChunkParsed(x, y, n, maxLenX), x.held) == []
    ensures SideStep(x, y, Read(n), maxLenX, AfterReading(x, n, r))
  {
    assert [r][..0] == [] && HandleAll(x.socket, [r]) == Handle(x.socket, r);
    assert StatusesFor([r]) == [] && x.out + [] == x.out;
  }

  /** The beginning of what the misleading sender writes. */
  lemma MisleadingBytes(limit: u32, written: seq<byte>)
    requires limit < U32_COUNT - 1
    requires written == Encode(DataMessage(0, Misleading(limit))) + Encode(DataMessage(1, []))
    ensures |written| >= 14 && written[0..9] == DataHead(0, limit + 1) && written[9..14] == [1, 0, 0, 0, 0]
  {
    hide DataHead;
    var tail := DataHead(1, 0) + [];
    SecondHead();
    HeadThen(DataHead(0, limit + 1), Misleading(limit), tail);
    MisleadingPayload(limit, tail);
  }

  lemma SecondHead()
    ensures |DataHead(1, 0) + []| == 9 && (DataHead(1, 0) + [])[..4] == [0, 0, 0, 0]
  {
    assert DataHead(1, 0)[..4] == [0, 0, 0, 0];
  }

  lemma HeadThen(head: seq<byte>, payload: seq<byte>, tail: seq<byte>)
    requires |head| == 9 && |payload + tail| >= 5
    ensures (head + payload + tail)[0..9] == head && (head + payload + tail)[9..14] == (payload + tail)[..5]
  {
    ConcatAssociates(head, payload, tail);
  }

  lemma MisleadingPayload(limit: u32, tail: seq<byte>)
    requires |tail| >= 4 && tail[..4] == [0, 0, 0, 0]
    ensures |Misleading(limit) + tail| >= 5 && (Misleading(limit) + tail)[..5] == [1, 0, 0, 0, 0]
  {
    var s := Misleading(limit) + tail;
    forall i | 1 <= i < 5 ensures s[i] == 0 {
      if i < limit + 1 {
        assert s[i] == Misleading(limit)[i];
      } else {
        assert s[i] == tail[i - limit - 1] == tail[..4][i - limit - 1];
      }
    }
    assert s[0] == 1;
    assert s[..5] == [s[0], s[1], s[2], s[3], s[4]];
  }

  lemma MisleadingParsed(limit: u32)
    requires limit < U32_COUNT - 1
    ensures Parse(DataHead(0, limit + 1), limit) == Parsed([Error(MessageTooBig(limit + 1))], DataHead(0, limit + 1))
    ensures Parse([1, 0, 0, 0, 0], limit) == Parsed([SeqIdOk(0)], [])
  {
    HeadRead(0, limit + 1, []);
    assert DataHead(0, limit + 1) + [] == DataHead(0, limit + 1);
    var s: seq<byte> := [1, 0, 0, 0, 0];
    assert s[1..5] == [0, 0, 0, 0] && s[5..] == [];
    assert ReadU32([0, 0, 0, 0]) == 0;
  }

  /** The last two steps of the run below: the refused header, then the false acknowledgement. */
  lemma MisleadingReads(y: Side, x: Side, limit: u32)
    requires limit < U32_COUNT - 1 && y.held == [] && y.read == 0
    requires x.socket.written == Encode(DataMessage(0, Misleading(limit))) + Encode(DataMessage(1, []))
    ensures var y' := AfterReading(y, 9, Error(MessageTooBig(limit + 1)));
      SideStep(y, x, Read(9), limit, y') && SideStep(y', x, Read(5), limit, AfterReading(y', 5, SeqIdOk(0)))
  {
    hide Parse;
    hide Encode;
    hide SideStep;
    hide Handle;
    var w := x.socket.written;
    MisleadingBytes(limit, w);
    MisleadingParsed(limit);
    assert [] + w[0..9] == w[0..9] && [] + w[9..14] == w[9..14];
    var e := Error(MessageTooBig(limit + 1));
    OneResult(y, x, 9, e, limit);
    OneResult(AfterReading(y, 9, e), x, 5, SeqIdOk(0), limit);
  }

  /** `y` waits for its message 0; `x` sends too much, and `y` takes a part of it for the acknowledgement. */
  lemma MisleadingRun(xIsA: bool, maxLenA: u32, maxLenB: u32) returns (r: Run, x: Side, y: Side)
    requires (if xIsA then maxLenB else maxLenA) < U32_COUNT - 1
    ensures r.Valid() && r.maxLenA == maxLenA && r.maxLenB == maxLenB && |r.states| == 6
    ensures var limit := if xIsA then maxLenB else maxLenA;
      r.Sends(if xIsA then limit + 1 else 0, if xIsA then 0 else limit + 1)
    ensures r.states[5] == Pair(xIsA, x, y) && !ReceiptSound(y, x, 0)
  {
    hide Parse;
    hide Encode;
    hide Handle;
    hide ReceiptSound;
    hide ChunkParsed;
    hide Misleading;
    var limit := if xIsA then maxLenB else maxLenA;
    var x1 := AfterSending(FRESH, Misleading(limit));
    x := AfterSending(x1, []);
    var y1 := AfterSending(FRESH, []);
    var y2 := AfterReading(y1, 9, Error(MessageTooBig(limit + 1)));
    y := AfterReading(y2, 5, SeqIdOk(0));
    assert x.socket.written == Encode(DataMessage(0, Misleading(limit))) + Encode(DataMessage(1, [])) by {
      assert [] + Encode(DataMessage(0, Misleading(limit))) == Encode(DataMessage(0, Misleading(limit)));
    }
    MisleadingReads(y1, x, limit);
    r := Run([Pair(xIsA, FRESH, FRESH)], [], maxLenA, maxLenB);
    r := Extend(r, !xIsA, SendData([]), Pair(xIsA, FRESH, y1));
    r := Extend(r, xIsA, SendData(Misleading(limit)), Pair(xIsA, x1, y1));
    r := Extend(r, xIsA, SendData([]), Pair(xIsA, x, y1));
    r := Extend(r, !xIsA, Read(9), Pair(xIsA, x, y2));
    r := Extend(r, !xIsA, Read(5), Pair(xIsA, x, y));
    MisledState(y1, limit);
    Misled(y, x, limit);
  }

  lemma MisledState(y: Side, limit: u32)
    requires limit < U32_COUNT - 1 && y.got == []
    ensures var z := AfterReading(AfterReading(y, 9, Error(MessageTooBig(limit + 1))), 5, SeqIdOk(0));
      z.sent == y.sent && z.got == [Error(MessageTooBig(limit + 1)), SeqIdOk(0)] && z.socket.lastOk == Some(0)
  {}

  lemma Misled(y: Side, x: Side, limit: u32)
    requires |y.sent| == 1 && x.socket.events == [] && y.socket.lastOk == Some(0)
    requires limit < U32_COUNT - 1 && y.got == [Error(MessageTooBig(limit + 1)), SeqIdOk(0)]
    ensures !ReceiptSound(y, x, 0)
  {
    var e := Error(MessageTooBig(limit + 1));
    CountNext([], e, []);
    CountNext([e], SeqIdOk(0), []);
    assert [] + [e] == [e] && [e] + [SeqIdOk(0)] == y.got;
  }

  /** Receipts mean what they should exactly when neither end may send more than the other accepts. */
  lemma SoundExactlyWithinLimits(lenA: u32, lenB: u32, maxLenA: u32, maxLenB: u32)
    ensures ReceiptsSound(lenA, lenB, maxLenA, maxLenB) <==> lenA <= maxLenB && lenB <= maxLenA
  {
    hide ReceiptSound;
    if lenA <= maxLenB && lenB <= maxLenA {
      forall r: Run, k: nat, n: nat
        | r.Valid() && r.maxLenA == maxLenA && r.maxLenB == maxLenB && r.Sends(lenA, lenB) && k < |r.states|
        ensures ReceiptSound(r.states[k].a, r.states[k].b, n) && ReceiptSound(r.states[k].b, r.states[k].a, n)
      {
        SendsLess(r, lenA, lenB, maxLenB, maxLenA);
        ReceiptRefinesIndices(r, k, n);
      }
    } else {
      var xIsA := lenA > maxLenB;
      var r, x, y := MisleadingRun(xIsA, maxLenA, maxLenB);
      var limit := if xIsA then maxLenB else maxLenA;
      SendsLess(r, if xIsA then limit + 1 else 0, if xIsA then 0 else limit + 1, lenA, lenB);
      assert !(ReceiptSound(r.states[5].a, r.states[5].b, 0) && ReceiptSound(r.states[5].b, r.states[5].a, 0));
    }
  }

  lemma SendsLess(r: Run, lenA: u32, lenB: u32, lenA': u32, lenB': u32)
    requires r.Sends(lenA, lenB) && lenA <= lenA' && lenB <= lenB'
    ensures r.Sends(lenA', lenB')
  {
    forall k | 0 <= k < |r.steps| ensures StepSends(r.steps[k], lenA', lenB') {
      assert StepSends(r.steps[k], lenA, lenB);
    }
  }
}
