/**
 * Two whole sockets of reliable UDP, a connecting one and the server's answer to it, that exchange
 * printed packets over a network which may lose, repeat and reorder them. Messages are plain.
 */
module RudpLink {
  import opened Prelude
  import opened AckBitmap
  import opened Fragmentation
  import opened Assembler
  import opened SentData
  import opened Packet
  import opened Connection
  import opened RudpSocket
  import D = Delivery

  type Accepted = map<u32, seq<byte>>

  /**
   * The state of a socket; `accepted` records every message that its `SendData` accepted and `outputs`
   * every message that its assembler completed.
   */
  datatype End = End(
    conn: Conn,
    pending: Pending,
    sets: Sets,
    nextSeqId: nat,
    accepted: Accepted,
    outputs: seq<Message>)

  /** `toA` and `toB` are all the bytes ever sent to either end. */
  datatype Link = Link(a: End, b: End, toA: set<seq<byte>>, toB: set<seq<byte>>)

  datatype Step =
    | Send(data: seq<byte>, options: SendOptions, now: nat)
    | Take(bytes: seq<byte>, now: nat, lead: Fragment)
    | Tick(now: nat, acks: seq<(u32, Bitmap)>, beat: bool, repairs: seq<Fragment>)
    | Finish(abort: bool, lastSeqId: u32, now: nat)

  /** A socket that has taken a packet, as `RudpSocket.Socket.AddPacket` says. */
  function Taken(e: End, p: Packet, now: nat, env: Env, cipherOf: CipherOf, lead: Fragment): End {
    var (conn, pending, sets) := Added((e.conn, e.pending, e.sets), p, now, env, cipherOf, lead);
    e.(conn := conn, pending := pending, sets := sets,
       outputs := e.outputs + Completed(e.conn, e.pending, p, now, cipherOf, lead))
  }

  /** The parser passes on packets and, if so configured, the bytes it cannot read. */
  function ReadBytes(e: End, bytes: seq<byte>, now: nat, env: Env, cipherOf: CipherOf, lead: Fragment)
    : (End, seq<Packet>)
  {
    match FromBytes(bytes, env.crc)
    case Ok(p) => (Taken(e, p, now, env, cipherOf, lead), Apply(e.conn, Receive(p, now), env).sent)
    case Err(_) =>
      (if env.transferRaw then e.(conn := e.conn.(events := e.conn.events + [RawEvent(bytes)])) else e, [])
  }

  ghost predicate LeadExists(e: End, bytes: seq<byte>, env: Env, lead: Fragment) {
    match FromBytes(bytes, env.crc)
    case Ok(p) =>
      TakesFragment(e.conn, p) ==>
        lead in Gathered(Lookup(e.pending, p.variant.fragment.seqId), p.variant.fragment).Values
    case Err(_) => true
  }

  /** One end, to which `toX` was sent, takes a step and sends some packets. */
  ghost predicate EndStep(x: End, toX: set<seq<byte>>, step: Step, env: Env, cipherOf: CipherOf, x': End,
                          sent: seq<Packet>)
  {
    match step
    case Send(data, options, now) =>
      && x.nextSeqId < U32_COUNT - 1
      && var s: u32 := x.nextSeqId;
         if !Sendable(data) then x' == x.(nextSeqId := x.nextSeqId + 1) && sent == []
         else
           && sent == FragmentPackets(x.conn, FragmentsOf(data, s, SendFlags(options)))
           && x' == x.(nextSeqId := x.nextSeqId + 1, accepted := x.accepted[s := data],
                       sets := if options.key then x.sets[s := NewSentSet(data, now, options)] else x.sets)
    case Take(bytes, now, lead) =>
      bytes in toX && LeadExists(x, bytes, env, lead) && (x', sent) == ReadBytes(x, bytes, now, env, cipherOf, lead)
    case Tick(now, acks, beat, repairs) =>
      && ValidSets(x.sets) && AcksOf(acks, x.pending, now, x.pending.Keys)
      && var o := Ticked(x.conn, now, env);
         && x' == x.(conn := o.conn, pending := TickPending(x.pending, now),
                     sets := if o.conn.status.IsDisconnected() then x.sets else TickSets(x.sets, now))
         && (if o.conn.status.IsDisconnected() then repairs == [] else RepairsOf(repairs, x.sets, now))
         && var beats := if beat then o.conn.Sends(Heartbeat) else o.sent;
            sent == AckPackets(o.conn, acks) + beats + FragmentPackets(o.conn, repairs)
    case Finish(abort, lastSeqId, now) =>
      var o := Apply(x.conn, Terminate(abort, lastSeqId, now), env);
      x' == x.(conn := o.conn) && sent == o.sent
  }

  function Printed(packets: seq<Packet>, crc: Crc): set<seq<byte>> {
    set p | p in packets :: Wire(p, crc)
  }

  ghost predicate LinkStep(l: Link, byA: bool, step: Step, sent: seq<Packet>, env: Env, cipherOf: CipherOf, l': Link) {
    if byA then
      EndStep(l.a, l.toA, step, env, cipherOf, l'.a, sent) && l' == l.(a := l'.a, toB := l.toB + Printed(sent, env.crc))
    else
      EndStep(l.b, l.toB, step, env, cipherOf, l'.b, sent) && l' == l.(b := l'.b, toA := l.toA + Printed(sent, env.crc))
  }

  function Fresh(c: Conn): End { End.End(c, map[], map[], 0, map[], []) }

  /** The client has sent its Syn, and the server has made a socket of it and answered. */
  function Start(env: Env, privA: PrivKey, privB: PrivKey, nowA: nat, nowB: nat): Link {
    var a := NewConnecting(env.curve, privA, nowA);
    var b := NewConnected(env.curve, privB, a.selfKey, nowB);
    Link(Fresh(a), Fresh(b), Printed(b.Sends(SynAck(b.selfKey)), env.crc), Printed(a.Sends(Syn(a.selfKey)), env.crc))
  }

  datatype Move = Move(byA: bool, step: Step, sent: seq<Packet>)

  datatype Run = Run(states: seq<Link>, moves: seq<Move>, env: Env, cipherOf: CipherOf)
  {
    ghost predicate Valid() {
      && |states| == |moves| + 1
      && (exists privA, privB, nowA, nowB :: states[0] == Start(env, privA, privB, nowA, nowB))
      && forall k :: 0 <= k < |moves| ==> StepsTo(k)
    }

    ghost predicate StepsTo(k: nat)
      requires k < |moves| < |states|
    {
      LinkStep(states[k], moves[k].byA, moves[k].step, moves[k].sent, env, cipherOf, states[k + 1])
    }
  }

  // ----- The invariant of one direction: the messages that `y` accepted, on their way to `x` -----

  ghost predicate WriterInv(y: End) {
    && (forall s :: s in y.accepted ==> s < y.nextSeqId && Sendable(y.accepted[s]))
    && SetsOf(y.sets, y.accepted)
  }

  ghost predicate SetsOf(sets: Sets, accepted: Accepted) {
    forall s :: s in sets ==> s in accepted && sets[s].Valid() && sets[s].data == accepted[s]
  }

  /** A fragment carries part of a message accepted under its id. */
  ghost predicate GoodVariant(v: Variant, accepted: Accepted) {
    && Printable(v)
    && (v.FragmentPacket? ==>
       v.fragment.seqId in accepted && D.Genuine(v.fragment, v.fragment.seqId, accepted[v.fragment.seqId]))
  }

  ghost predicate GoodBytes(bytes: seq<byte>, accepted: Accepted, crc: Crc) {
    exists p: Packet :: bytes == Wire(p, crc) && GoodVariant(p.variant, accepted)
  }

  ghost predicate NetworkInv(toX: set<seq<byte>>, accepted: Accepted, crc: Crc) {
    forall bytes :: bytes in toX ==> GoodBytes(bytes, accepted, crc)
  }

  /** An acknowledgement is about a message accepted under its id, and truthful. */
  ghost predicate GoodAck(v: Variant, accepted: Accepted, outputs: seq<Message>) {
    && Printable(v)
    && (v.Ack? ==> v.seqId in accepted && D.Truthful(v.ack, v.seqId, accepted[v.seqId], outputs))
  }

  ghost predicate GoodAckBytes(bytes: seq<byte>, accepted: Accepted, outputs: seq<Message>, crc: Crc) {
    exists p: Packet :: bytes == Wire(p, crc) && GoodAck(p.variant, accepted, outputs)
  }

  /** What `x` sends back about the messages of `y`. */
  ghost predicate AcksInv(toY: set<seq<byte>>, accepted: Accepted, outputs: seq<Message>, crc: Crc) {
    forall bytes :: bytes in toY ==> GoodAckBytes(bytes, accepted, outputs, crc)
  }

  ghost predicate TracksInv(sets: Sets, accepted: Accepted, outputs: seq<Message>) {
    forall s :: s in sets ==> s in accepted && D.TrackInv(sets[s], s, accepted[s], outputs)
  }

  ghost predicate PendingInv(pending: Pending, accepted: Accepted, outputs: seq<Message>) {
    forall s :: s in pending ==> s in accepted && D.SetInv(pending[s], s, accepted[s], outputs)
  }

  predicate IsAccepted(bytes: seq<byte>, accepted: Accepted) {
    exists s :: s in accepted && accepted[s] == bytes
  }

  ghost predicate EventsInv(events: seq<Event>, accepted: Accepted) {
    forall n :: 0 <= n < |events| && events[n].DataEvent? ==> IsAccepted(events[n].bytes, accepted)
  }

  /** What the assembler completed has been handed to the user. */
  ghost predicate OutputsInv(outputs: seq<Message>, events: seq<Event>, accepted: Accepted) {
    forall m :: m in outputs ==> m.0 in accepted && m.1 == accepted[m.0] && DataEvent(m.1) in events
  }

  /** What holds at the end that reads. */
  ghost predicate ReaderInv(x: End, accepted: Accepted) {
    && PendingInv(x.pending, accepted, x.outputs)
    && EventsInv(x.conn.events, accepted) && OutputsInv(x.outputs, x.conn.events, accepted)
  }

  ghost predicate DirectionInv(y: End, x: End, toX: set<seq<byte>>, toY: set<seq<byte>>, crc: Crc) {
    && WriterInv(y) && NetworkInv(toX, y.accepted, crc) && ReaderInv(x, y.accepted)
    && AcksInv(toY, y.accepted, x.outputs, crc) && TracksInv(y.sets, y.accepted, x.outputs)
  }

  ghost predicate Inv(l: Link, crc: Crc) {
    DirectionInv(l.b, l.a, l.toA, l.toB, crc) && DirectionInv(l.a, l.b, l.toB, l.toA, crc)
  }

  // ----- The side that reads -----

  /** The connection itself only adds events, and no data events. */
  lemma NoDataFrom(c: Conn, op: Op, env: Env, accepted: Accepted)
    requires EventsInv(c.events, accepted)
    ensures EventsInv(Apply(c, op, env).conn.events, accepted)
    ensures forall e :: e in c.events ==> e in Apply(c, op, env).conn.events
  {}

  lemma OutputsStay(outputs: seq<Message>, events: seq<Event>, events': seq<Event>, accepted: Accepted)
    requires OutputsInv(outputs, events, accepted) && forall e :: e in events ==> e in events'
    ensures OutputsInv(outputs, events', accepted)
  {}

  /** A genuine fragment completes at most the message it is part of. */
  lemma TakesGood(x: End, f: Fragment, now: nat, cipher: Option<Cipher>, lead: Fragment, accepted: Accepted)
    requires PendingInv(x.pending, accepted, x.outputs) && lead in Gathered(Lookup(x.pending, f.seqId), f).Values
    requires f.seqId in accepted && D.Genuine(f, f.seqId, accepted[f.seqId])
    ensures var more := PushOutput(x.pending, f, now, cipher, lead);
      && PendingInv(PushPending(x.pending, f, now, cipher, lead), accepted, x.outputs + more)
      && (more == [] || more == [(f.seqId, accepted[f.seqId])])
  {
    hide D.Genuine;
    hide D.SetInv;
    hide Absorb;
    var s, prev := f.seqId, Lookup(x.pending, f.seqId);
    var a, more := Absorb(prev, f, now, cipher, lead), PushOutput(x.pending, f, now, cipher, lead);
    D.AbsorbKeepsSetInv(prev, f, now, cipher, lead, s, accepted[s], x.outputs);
    assert a.output.None? ==> x.outputs + more == x.outputs;
    forall t | t in x.pending && t != s ensures D.SetInv(x.pending[t], t, accepted[t], x.outputs + more) {
      SetStays(x.pending[t], t, accepted[t], x.outputs, x.outputs + more);
    }
  }

  lemma SetStays(set_: AssemblySet, s: u32, data: seq<byte>, outputs: seq<Message>, outputs': seq<Message>)
    requires D.SetInv(set_, s, data, outputs) && forall m :: m in outputs ==> m in outputs'
    ensures D.SetInv(set_, s, data, outputs')
  {}

  lemma Announced(outputs: seq<Message>, events: seq<Event>, more: seq<Message>, s: u32, accepted: Accepted)
    requires OutputsInv(outputs, events, accepted) && EventsInv(events, accepted)
    requires more == [] || (s in accepted && more == [(s, accepted[s])])
    ensures OutputsInv(outputs + more, events + DataEvents(more), accepted)
    ensures EventsInv(events + DataEvents(more), accepted)
  {
    if more != [] {
      assert DataEvents(more) == [DataEvent(accepted[s])];
      assert IsAccepted(accepted[s], accepted);
      forall m | m in outputs + more
        ensures m.0 in accepted && m.1 == accepted[m.0] && DataEvent(m.1) in events + DataEvents(more)
      {}
    } else {
      assert events + DataEvents(more) == events && outputs + more == outputs;
    }
  }

  lemma TakeKeeps(x: End, p: Packet, now: nat, lead: Fragment, env: Env, cipherOf: CipherOf, accepted: Accepted)
    requires ReaderInv(x, accepted) && GoodVariant(p.variant, accepted)
    requires TakesFragment(x.conn, p) ==>
      lead in Gathered(Lookup(x.pending, p.variant.fragment.seqId), p.variant.fragment).Values
    ensures ReaderInv(Taken(x, p, now, env, cipherOf, lead), accepted)
  {
    hide PendingInv;
    hide OutputsInv;
    hide EventsInv;
    hide D.Genuine;
    var more, events :=
      Completed(x.conn, x.pending, p, now, cipherOf, lead), Apply(x.conn, Receive(p, now), env).conn.events;
    NoDataFrom(x.conn, Receive(p, now), env, accepted);
    OutputsStay(x.outputs, x.conn.events, events, accepted);
    if TakesFragment(x.conn, p) {
      TakesGood(x, p.variant.fragment, now, CipherFor(x.conn.secret, cipherOf), lead, accepted);
      Announced(x.outputs, events, more, p.variant.fragment.seqId, accepted);
    } else {
      assert x.outputs + more == x.outputs && events + DataEvents(more) == events;
    }
  }

  lemma TickedPendingKeeps(pending: Pending, now: nat, accepted: Accepted, outputs: seq<Message>)
    requires PendingInv(pending, accepted, outputs)
    ensures PendingInv(TickPending(pending, now), accepted, outputs)
  {
    forall s | s in TickPending(pending, now)
      ensures s in accepted && D.SetInv(TickPending(pending, now)[s], s, accepted[s], outputs)
    {
      assert D.SetInv(pending[s], s, accepted[s], outputs);
    }
  }

  lemma ConnKeeps(x: End, op: Op, env: Env, accepted: Accepted)
    requires ReaderInv(x, accepted)
    ensures ReaderInv(x.(conn := Apply(x.conn, op, env).conn), accepted)
  {
    hide Apply;
    NoDataFrom(x.conn, op, env, accepted);
    OutputsStay(x.outputs, x.conn.events, Apply(x.conn, op, env).conn.events, accepted);
  }

  lemma ReaderKeeps(x: End, toX: set<seq<byte>>, step: Step, env: Env, cipherOf: CipherOf, x': End, sent: seq<Packet>,
                    accepted: Accepted)
    requires NetworkInv(toX, accepted, env.crc) && ReaderInv(x, accepted)
    requires EndStep(x, toX, step, env, cipherOf, x', sent)
    ensures ReaderInv(x', accepted)
  {
    hide ReaderInv;
    match step
    case Send(_, _, _) => SameReader(x, x', accepted);
    case Take(bytes, now, lead) =>
      assert GoodBytes(bytes, accepted, env.crc);
      var p: Packet :| bytes == Wire(p, env.crc) && GoodVariant(p.variant, accepted);
      ParseAfterPrint(p, env.crc);
      TakeKeeps(x, p, now, lead, env, cipherOf, accepted);
    case Tick(now, _, _, _) =>
      ConnKeeps(x, Op.Tick(now), env, accepted);
      TickKeeps(x.(conn := x'.conn), x', now, accepted);
    case Finish(abort, lastSeqId, now) =>
      ConnKeeps(x, Terminate(abort, lastSeqId, now), env, accepted);
  }

  lemma SameReader(x: End, x': End, accepted: Accepted)
    requires ReaderInv(x, accepted) && x'.conn == x.conn && x'.pending == x.pending && x'.outputs == x.outputs
    ensures ReaderInv(x', accepted)
  {}

  lemma TickKeeps(x: End, x': End, now: nat, accepted: Accepted)
    requires ReaderInv(x, accepted)
    requires x'.conn == x.conn && x'.pending == TickPending(x.pending, now) && x'.outputs == x.outputs
    ensures ReaderInv(x', accepted)
  {
    hide TickPending;
    TickedPendingKeeps(x.pending, now, accepted, x.outputs);
  }

  lemma AcksGood(x: End, c: Conn, acks: seq<(u32, Bitmap)>, now: nat, accepted: Accepted, p: Packet)
    requires ReaderInv(x, accepted) && AcksOf(acks, x.pending, now, x.pending.Keys) && p in AckPackets(c, acks)
    ensures GoodAck(p.variant, accepted, x.outputs)
  {
    hide D.SetInv;
    hide D.Truthful;
    var i := AckSent(c, acks, p);
    var s := acks[i].0;
    D.GeneratedIsTruthful(x.pending[s], acks[i].1, s, accepted[s], x.outputs);
  }

  /** Every acknowledgement that an end sends is truthful about what it has output. */
  lemma AnswersGood(x: End, toX: set<seq<byte>>, step: Step, env: Env, cipherOf: CipherOf, x': End, sent: seq<Packet>,
                    accepted: Accepted)
    requires ReaderInv(x, accepted) && WriterInv(x) && EndStep(x, toX, step, env, cipherOf, x', sent)
    ensures forall p :: p in sent ==> GoodAck(p.variant, accepted, x'.outputs)
  {
    hide ReaderInv;
    hide WriterInv;
    hide D.Truthful;
    hide FragmentPackets;
    hide RepairsOf;
    SendsGood(x, toX, step, env, cipherOf, x', sent);
    forall p | p in sent ensures GoodAck(p.variant, accepted, x'.outputs) {
      assert GoodVariant(p.variant, x'.accepted);
      if p.variant.Ack? {
        AcksGood(x, Ticked(x.conn, step.now, env).conn, step.acks, step.now, accepted, p);
      }
    }
  }

  /** More outputs falsify no acknowledgement. */
  lemma AnswersStay(toY: set<seq<byte>>, sets: Sets, accepted: Accepted, outputs: seq<Message>, outputs': seq<Message>,
                    crc: Crc)
    requires AcksInv(toY, accepted, outputs, crc) && TracksInv(sets, accepted, outputs)
    requires forall m :: m in outputs ==> m in outputs'
    ensures AcksInv(toY, accepted, outputs', crc) && TracksInv(sets, accepted, outputs')
  {
    forall bytes | bytes in toY ensures GoodAckBytes(bytes, accepted, outputs', crc) {
      assert GoodAckBytes(bytes, accepted, outputs, crc);
      var p: Packet :| bytes == Wire(p, crc) && GoodAck(p.variant, accepted, outputs);
      assert GoodAck(p.variant, accepted, outputs');
    }
    forall s | s in sets ensures s in accepted && D.TrackInv(sets[s], s, accepted[s], outputs') {
      assert D.TrackInv(sets[s], s, accepted[s], outputs);
    }
  }

  lemma PrintedAnswers(toY: set<seq<byte>>, sent: seq<Packet>, accepted: Accepted, outputs: seq<Message>, crc: Crc)
    requires AcksInv(toY, accepted, outputs, crc) && forall p :: p in sent ==> GoodAck(p.variant, accepted, outputs)
    ensures AcksInv(toY + Printed(sent, crc), accepted, outputs, crc)
  {
    forall bytes | bytes in Printed(sent, crc) ensures GoodAckBytes(bytes, accepted, outputs, crc) {
      var p :| p in sent && bytes == Wire(p, crc);
    }
  }

  // ----- The side that writes -----

  /** `p` is one of the fragments, sent by `c`. */
  lemma {:induction false} FragmentSent(c: Conn, fragments: seq<Fragment>, p: Packet)
    requires p in FragmentPackets(c, fragments)
    ensures p.variant.FragmentPacket? && p.variant.fragment in fragments
  {
    if p !in c.Sends(FragmentPacket(fragments[|fragments| - 1])) {
      FragmentSent(c, fragments[..|fragments| - 1], p);
    }
  }

  /** `p` is one of the acknowledgements, sent by `c`. */
  lemma {:induction false} AckSent(c: Conn, acks: seq<(u32, Bitmap)>, p: Packet) returns (i: nat)
    requires p in AckPackets(c, acks)
    ensures i < |acks| && p.variant == Ack(acks[i].0, acks[i].1)
  {
    i := |acks| - 1;
    if p in AckPackets(c, acks[..|acks| - 1]) { i := AckSent(c, acks[..|acks| - 1], p); }
  }

  lemma {:induction false} InItsRound(repairs: seq<Fragment>, f: Fragment)
    requires f in repairs
    ensures f in OfMessage(repairs, f.seqId)
  {
    if f != repairs[|repairs| - 1] { InItsRound(repairs[..|repairs| - 1], f); }
  }

  lemma RepairIsGood(x: End, repairs: seq<Fragment>, now: nat, f: Fragment)
    requires WriterInv(x) && RepairsOf(repairs, x.sets, now) && f in repairs
    ensures GoodVariant(FragmentPacket(f), x.accepted)
  {
    InItsRound(repairs, f);
    var s := f.seqId;
    assert OfMessage(repairs, s) == Round(x.sets, s, now);
    D.ResentGenuine(x.sets[s], s);
    assert D.Genuine(f, s, x.sets[s].data);
  }

  lemma FirstSendGood(c: Conn, s: u32, data: seq<byte>, options: SendOptions, accepted: Accepted, p: Packet)
    requires Sendable(data) && s in accepted && accepted[s] == data
    requires p in FragmentPackets(c, FragmentsOf(data, s, SendFlags(options)))
    ensures GoodVariant(p.variant, accepted) && !p.variant.Ack?
  {
    hide FragmentsOf;
    hide Sendable;
    FragmentSent(c, FragmentsOf(data, s, SendFlags(options)), p);
    D.SentFragmentsGenuine(data, s, options);
    assert D.Genuine(p.variant.fragment, s, data);
  }

  /** What a tick sends is an acknowledgement or good. */
  lemma TickSendGood(x: End, c: Conn, acks: seq<(u32, Bitmap)>, beats: seq<Packet>, repairs: seq<Fragment>, now: nat,
                     p: Packet)
    requires WriterInv(x) && (RepairsOf(repairs, x.sets, now) || repairs == [])
    requires forall b :: b in beats ==> b.variant.Heartbeat? || b.variant.Syn?
    requires forall b :: b in beats ==> Printable(b.variant)
    requires p in AckPackets(c, acks) + beats + FragmentPackets(c, repairs)
    ensures GoodVariant(p.variant, x.accepted)
    ensures p.variant.Ack? ==> p in AckPackets(c, acks)
  {
    hide WriterInv;
    hide RepairsOf;
    if p in AckPackets(c, acks) {
      var _ := AckSent(c, acks, p);
    } else if p in FragmentPackets(c, repairs) {
      FragmentSent(c, repairs, p);
      RepairIsGood(x, repairs, now, p.variant.fragment);
    }
  }

  /** Everything an end sends is good for what it has accepted by then. */
  lemma SendsGood(x: End, toX: set<seq<byte>>, step: Step, env: Env, cipherOf: CipherOf, x': End, sent: seq<Packet>)
    requires WriterInv(x) && EndStep(x, toX, step, env, cipherOf, x', sent)
    ensures forall p :: p in sent ==> GoodVariant(p.variant, x'.accepted)
    ensures forall p :: p in sent && p.variant.Ack? ==>
      step.Tick? && p in AckPackets(Ticked(x.conn, step.now, env).conn, step.acks)
  {
    hide FragmentPackets;
    hide AckPackets;
    hide RepairsOf;
    hide AcksOf;
    hide FragmentsOf;
    hide Sendable;
    hide WriterInv;
    hide D.Genuine;
    hide TickSets;
    hide TickPending;
    hide Completed;
    match step
    case Send(data, options, now) =>
      forall p | p in sent ensures GoodVariant(p.variant, x'.accepted) && !p.variant.Ack? {
        FirstSendGood(x.conn, x.nextSeqId, data, options, x'.accepted, p);
      }
    case Tick(now, acks, beat, repairs) =>
      var o := Ticked(x.conn, now, env);
      var beats := if beat then o.conn.Sends(Heartbeat) else o.sent;
      forall p | p in sent ensures GoodVariant(p.variant, x'.accepted)
        && (p.variant.Ack? ==> p in AckPackets(o.conn, acks)) {
        TickSendGood(x, o.conn, acks, beats, repairs, now, p);
      }
    case _ =>
  }

  /** What an end knows of the messages it accepted, when the other end has made these outputs. */
  ghost predicate SenderInv(x: End, outputs: seq<Message>) {
    WriterInv(x) && TracksInv(x.sets, x.accepted, outputs)
  }

  lemma SendKeeps(x: End, x': End, data: seq<byte>, options: SendOptions, now: nat, outputs: seq<Message>)
    requires SenderInv(x, outputs) && Sendable(data) && x.nextSeqId < U32_COUNT - 1
    requires x'.nextSeqId == x.nextSeqId + 1 && x'.accepted == x.accepted[x.nextSeqId := data]
    requires x'.sets == if options.key then x.sets[x.nextSeqId := NewSentSet(data, now, options)] else x.sets
    ensures SenderInv(x', outputs) && Extends(x.accepted, x'.accepted)
  {
    hide Sendable;
    D.NewTrackInv(data, now, options, x.nextSeqId, outputs);
  }

  lemma SameSets(x: End, x': End, outputs: seq<Message>)
    requires SenderInv(x, outputs)
    requires x'.sets == x.sets && x'.accepted == x.accepted && x.nextSeqId <= x'.nextSeqId
    ensures SenderInv(x', outputs) && Extends(x.accepted, x'.accepted)
  {}

  /** Ticks leave the data alone and mark received only what an acknowledgement says. */
  lemma TickKeepsSets(x: End, x': End, now: nat, outputs: seq<Message>)
    requires SenderInv(x, outputs)
    requires x'.sets == TickSets(x.sets, now) && x'.accepted == x.accepted && x'.nextSeqId == x.nextSeqId
    ensures SenderInv(x', outputs) && Extends(x.accepted, x'.accepted)
  {
    hide D.TrackInv;
    forall s | s in x'.sets
      ensures x'.sets[s].Valid() && x'.sets[s].data == x.accepted[s]
      ensures D.TrackInv(x'.sets[s], s, x.accepted[s], outputs)
    {
      D.TickedTrackInv(x.sets[s], now, s, x.accepted[s], outputs);
    }
  }

  lemma AckKeeps(x: End, x': End, p: Packet, now: nat, outputs: seq<Message>)
    requires SenderInv(x, outputs) && GoodAck(p.variant, x.accepted, outputs)
    requires x'.sets == SetsAfter(x.conn, x.sets, p, now) && x'.accepted == x.accepted && x'.nextSeqId == x.nextSeqId
    ensures SenderInv(x', outputs) && Extends(x.accepted, x'.accepted)
  {
    hide D.Truthful;
    hide Sendable;
  }

  lemma SenderKeeps(x: End, toX: set<seq<byte>>, step: Step, env: Env, cipherOf: CipherOf, x': End, sent: seq<Packet>,
                    outputs: seq<Message>)
    requires SenderInv(x, outputs) && AcksInv(toX, x.accepted, outputs, env.crc)
    requires EndStep(x, toX, step, env, cipherOf, x', sent)
    ensures SenderInv(x', outputs) && Extends(x.accepted, x'.accepted)
  {
    hide SenderInv;
    hide Apply;
    hide Ticked;
    hide FragmentPackets;
    hide AckPackets;
    hide RepairsOf;
    hide AcksOf;
    hide PendingAfter;
    hide TickPending;
    hide TickSets;
    hide Completed;
    hide FragmentsOf;
    hide Extends;
    match step
    case Send(data, options, now) =>
      if Sendable(data) {
        SendKeeps(x, x', data, options, now, outputs);
      } else {
        SameSets(x, x', outputs);
      }
    case Take(bytes, now, lead) =>
      assert GoodAckBytes(bytes, x.accepted, outputs, env.crc);
      var p: Packet :| bytes == Wire(p, env.crc) && GoodAck(p.variant, x.accepted, outputs);
      ParseAfterPrint(p, env.crc);
      AckKeeps(x, x', p, now, outputs);
    case Tick(now, _, _, _) =>
      if x'.conn.status.IsDisconnected() {
        SameSets(x, x', outputs);
      } else {
        TickKeepsSets(x, x', now, outputs);
      }
    case Finish(_, _, _) => SameSets(x, x', outputs);
  }

  ghost predicate Extends(accepted: Accepted, accepted': Accepted) {
    forall s :: s in accepted ==> s in accepted' && accepted'[s] == accepted[s]
  }

  /** What was good stays good as more is accepted. */
  lemma GoodStays(accepted: Accepted, accepted': Accepted, toY: set<seq<byte>>, toX: set<seq<byte>>, y: End, crc: Crc)
    requires Extends(accepted, accepted')
    requires NetworkInv(toY, accepted, crc) && AcksInv(toX, accepted, y.outputs, crc) && ReaderInv(y, accepted)
    ensures NetworkInv(toY, accepted', crc) && AcksInv(toX, accepted', y.outputs, crc) && ReaderInv(y, accepted')
  {
    forall bytes | bytes in toY ensures GoodBytes(bytes, accepted', crc) {
      assert GoodBytes(bytes, accepted, crc);
      var p: Packet :| bytes == Wire(p, crc) && GoodVariant(p.variant, accepted);
      assert GoodVariant(p.variant, accepted');
    }
    forall bytes | bytes in toX ensures GoodAckBytes(bytes, accepted', y.outputs, crc) {
      assert GoodAckBytes(bytes, accepted, y.outputs, crc);
      var p: Packet :| bytes == Wire(p, crc) && GoodAck(p.variant, accepted, y.outputs);
      assert GoodAck(p.variant, accepted', y.outputs);
    }
    ReaderStays(accepted, accepted', y);
  }

  lemma ReaderStays(accepted: Accepted, accepted': Accepted, y: End)
    requires Extends(accepted, accepted') && ReaderInv(y, accepted)
    ensures ReaderInv(y, accepted')
  {
    hide D.SetInv;
    forall n | 0 <= n < |y.conn.events| && y.conn.events[n].DataEvent?
      ensures IsAccepted(y.conn.events[n].bytes, accepted')
    {
      var s :| s in accepted && accepted[s] == y.conn.events[n].bytes;
      assert accepted'[s] == accepted[s];
    }
  }

  lemma PrintedGood(toY: set<seq<byte>>, sent: seq<Packet>, accepted: Accepted, crc: Crc)
    requires NetworkInv(toY, accepted, crc) && forall p :: p in sent ==> GoodVariant(p.variant, accepted)
    ensures NetworkInv(toY + Printed(sent, crc), accepted, crc)
  {
    forall bytes | bytes in Printed(sent, crc) ensures GoodBytes(bytes, accepted, crc) {
      var p :| p in sent && bytes == Wire(p, crc);
    }
  }

  lemma OutputsGrow(x: End, toX: set<seq<byte>>, step: Step, env: Env, cipherOf: CipherOf, x': End, sent: seq<Packet>)
    requires EndStep(x, toX, step, env, cipherOf, x', sent)
    ensures forall m :: m in x.outputs ==> m in x'.outputs
  {
    hide Apply;
    hide Ticked;
    hide Completed;
  }

  /** A step of `x` keeps both directions. */
  lemma EndKeepsInv(x: End, y: End, toX: set<seq<byte>>, toY: set<seq<byte>>, step: Step, sent: seq<Packet>, env: Env,
                    cipherOf: CipherOf, x': End)
    requires DirectionInv(y, x, toX, toY, env.crc) && DirectionInv(x, y, toY, toX, env.crc)
    requires EndStep(x, toX, step, env, cipherOf, x', sent)
    ensures DirectionInv(y, x', toX, toY + Printed(sent, env.crc), env.crc)
    ensures DirectionInv(x', y, toY + Printed(sent, env.crc), toX, env.crc)
  {
    hide EndStep;
    hide NetworkInv;
    hide AcksInv;
    hide TracksInv;
    hide ReaderInv;
    hide WriterInv;
    hide Extends;
    ReaderKeeps(x, toX, step, env, cipherOf, x', sent, y.accepted);
    OutputsGrow(x, toX, step, env, cipherOf, x', sent);
    AnswersStay(toY, y.sets, y.accepted, x.outputs, x'.outputs, env.crc);
    AnswersGood(x, toX, step, env, cipherOf, x', sent, y.accepted);
    PrintedAnswers(toY, sent, y.accepted, x'.outputs, env.crc);
    SenderKeeps(x, toX, step, env, cipherOf, x', sent, y.outputs);
    SendsGood(x, toX, step, env, cipherOf, x', sent);
    GoodStays(x.accepted, x'.accepted, toY, toX, y, env.crc);
    PrintedGood(toY, sent, x'.accepted, env.crc);
  }

  lemma LinkKeepsInv(l: Link, byA: bool, step: Step, sent: seq<Packet>, env: Env, cipherOf: CipherOf, l': Link)
    requires Inv(l, env.crc) && LinkStep(l, byA, step, sent, env, cipherOf, l')
    ensures Inv(l', env.crc)
  {
    hide DirectionInv;
    hide EndStep;
    if byA {
      EndKeepsInv(l.a, l.b, l.toA, l.toB, step, sent, env, cipherOf, l'.a);
    } else {
      EndKeepsInv(l.b, l.a, l.toB, l.toA, step, sent, env, cipherOf, l'.b);
    }
  }

  lemma StartInv(env: Env, privA: PrivKey, privB: PrivKey, nowA: nat, nowB: nat)
    ensures Inv(Start(env, privA, privB, nowA, nowB), env.crc)
  {
    var l := Start(env, privA, privB, nowA, nowB);
    PrintedGood({}, l.a.conn.Sends(Syn(l.a.conn.selfKey)), map[], env.crc);
    PrintedGood({}, l.b.conn.Sends(SynAck(l.b.conn.selfKey)), map[], env.crc);
    PrintedAnswers({}, l.a.conn.Sends(Syn(l.a.conn.selfKey)), map[], [], env.crc);
    PrintedAnswers({}, l.b.conn.Sends(SynAck(l.b.conn.selfKey)), map[], [], env.crc);
    assert {} + l.toA == l.toA && {} + l.toB == l.toB;
  }

  lemma {:induction false} RunKeepsInv(r: Run, k: nat)
    requires r.Valid() && k < |r.states|
    ensures Inv(r.states[k], r.env.crc)
  {
    hide Inv;
    hide LinkStep;
    hide Start;
    if k > 0 {
      RunKeepsInv(r, k - 1);
      assert r.StepsTo(k - 1);
      LinkKeepsInv(r.states[k - 1], r.moves[k - 1].byA, r.moves[k - 1].step, r.moves[k - 1].sent, r.env, r.cipherOf,
                   r.states[k]);
    } else {
      var privA, privB, nowA, nowB :| r.states[0] == Start(r.env, privA, privB, nowA, nowB);
      StartInv(r.env, privA, privB, nowA, nowB);
    }
  }

  // ----- Main results -----

  /** In every run, each data event at one end is a message that the other end's `SendData` accepted. */
  lemma DataIsAccepted(r: Run, k: nat)
    requires r.Valid() && k < |r.states|
    ensures EventsInv(r.states[k].a.conn.events, r.states[k].b.accepted)
    ensures EventsInv(r.states[k].b.conn.events, r.states[k].a.accepted)
  {
    RunKeepsInv(r, k);
  }

  /**
   * In every run, whatever was lost, repeated and reordered: unless the message falls in the gap, an end
   * that reports it received is right, for the other end has put it in its event queue.
   */
  lemma ReceivedMeansEvent(r: Run, k: nat, byA: bool, s: u32)
    requires r.Valid() && k < |r.states|
    requires ReportOf((if byA then r.states[k].a else r.states[k].b).sets, s) == Some(true)
    ensures var (y, x) := if byA then (r.states[k].a, r.states[k].b) else (r.states[k].b, r.states[k].a);
      && s in y.accepted && Sendable(y.accepted[s])
      && (!D.Gap(FragTotal(y.accepted[s])) ==> DataEvent(y.accepted[s]) in x.conn.events)
  {
    hide NetworkInv;
    hide AcksInv;
    hide PendingInv;
    hide EventsInv;
    RunKeepsInv(r, k);
  }

  // ----- The sockets take these steps -----

  ghost predicate IsEnd(socket: Socket, e: End)
    reads socket, socket.assembler, socket.tracker
  {
    && e.conn == socket.View() && e.pending == socket.assembler.pendingFragments
    && e.sets == socket.tracker.sets && e.nextSeqId == socket.nextLocalSeqId
  }

  method SendTakesStep(socket: Socket, data: seq<byte>, options: SendOptions, ghost e: End)
    returns (ghost e': End, ghost sent: seq<Packet>)
    requires socket.Valid() && IsEnd(socket, e) && socket.sends < U32_COUNT - 1
    modifies socket, socket.tracker
    ensures socket.Valid() && IsEnd(socket, e') && socket.out == old(socket.out) + sent
    ensures EndStep(e, {}, Send(data, options, old(socket.cachedNow)), socket.env, socket.cipherOf, e', sent)
  {
    var r, seqId, panicked := socket.SendData(data, options);
    e' := End.End(socket.View(), e.pending, socket.tracker.sets, e.nextSeqId + 1,
                  if r.Ok? then e.accepted[seqId := data] else e.accepted, e.outputs);
    sent := if r.Ok? then FragmentPackets(e.conn, FragmentsOf(data, seqId, SendFlags(options))) else [];
  }

  method TakeTakesStep(socket: Socket, bytes: seq<byte>, ghost e: End)
    returns (ghost e': End, ghost sent: seq<Packet>, ghost lead: Fragment)
    requires socket.Valid() && IsEnd(socket, e)
    modifies socket, socket.assembler, socket.tracker
    ensures socket.Valid() && IsEnd(socket, e') && socket.out == old(socket.out) + sent
    ensures EndStep(e, {bytes}, Take(bytes, old(socket.cachedNow), lead), socket.env, socket.cipherOf, e', sent)
  {
    ghost var now := socket.cachedNow;
    lead := socket.AddReceivedBytes(bytes);
    ghost var after := ReadBytes(e, bytes, now, socket.env, socket.cipherOf, lead);
    e', sent := after.0, after.1;
  }

  method TickTakesStep(socket: Socket, ghost e: End)
    returns (ok: bool, ghost e': End, ghost sent: seq<Packet>, ghost step: Step)
    requires socket.Valid() && IsEnd(socket, e) && ClockPast(socket.assembler.pendingFragments, socket.cachedNow)
    modifies socket, socket.assembler, socket.tracker
    ensures ok ==> socket.Valid() && IsEnd(socket, e') && socket.out == old(socket.out) + sent
    ensures ok ==> step.Tick? && EndStep(e, {}, step, socket.env, socket.cipherOf, e', sent)
    ensures !ok ==> TickMayPanic(e.pending, old(socket.cachedNow))
  {
    hide TickPending;
    hide TickSets;
    hide RepairsOf;
    hide AcksOf;
    hide Ticked;
    hide AckPackets;
    hide FragmentPackets;
    ghost var acks, repairs, before, last := [], [], socket.out, socket.lastSentMessage;
    ok, acks, repairs := socket.InnerTick();
    ghost var o := Ticked(e.conn, socket.cachedNow, socket.env);
    ghost var beats := socket.Beat(e.conn, acks != [] && !o.conn.status.IsDisconnected(), last);
    ghost var beat := beats == o.conn.Sends(Heartbeat);
    step := Step.Tick(socket.cachedNow, acks, beat, repairs);
    sent := AckPackets(o.conn, acks) + beats + FragmentPackets(o.conn, repairs);
    e' := End.End(socket.View(), socket.assembler.pendingFragments, socket.tracker.sets, e.nextSeqId, e.accepted,
                  e.outputs);
    if ok {
      ConcatAssociates(before, AckPackets(o.conn, acks), beats);
      ConcatAssociates(before, AckPackets(o.conn, acks) + beats, FragmentPackets(o.conn, repairs));
    }
  }

  method FinishTakesStep(socket: Socket, abort: bool, ghost e: End) returns (ghost e': End, ghost sent: seq<Packet>)
    requires socket.Valid() && IsEnd(socket, e)
    modifies socket
    ensures socket.Valid() && IsEnd(socket, e') && socket.out == old(socket.out) + sent
    ensures EndStep(e, {}, Finish(abort, socket.LastSeqId(), old(socket.cachedNow)), socket.env, socket.cipherOf, e',
                    sent)
  {
    ghost var o := Apply(e.conn, Terminate(abort, socket.LastSeqId(), socket.cachedNow), socket.env);
    if abort { socket.Abort(); } else { socket.SendEnd(); }
    e', sent := e.(conn := o.conn), o.sent;
  }
}
