/**
 * One end of a reliable-UDP connection: the connection state, the assembler and the tracker joined
 * together (net/socket.rs). Sending a packet never fails.
 */
module RudpSocket {
  import opened Prelude
  import opened AckBitmap
  import opened Fragmentation
  import opened Assembler
  import opened SentData
  import opened Packet
  import opened Connection

  /** How to open sealed messages under a shared key. */
  type CipherOf = SharedKey -> Cipher

  function CipherFor(secret: Secret, cipherOf: CipherOf): Option<Cipher> {
    match secret
    case Ours(_) => None
    case Shared(key) => Some(cipherOf(key))
  }

  function FragmentPackets(c: Conn, fragments: seq<Fragment>): seq<Packet> {
    if fragments == [] then []
    else FragmentPackets(c, fragments[..|fragments| - 1]) + c.Sends(FragmentPacket(fragments[|fragments| - 1]))
  }

  function AckPackets(c: Conn, acks: seq<(u32, Bitmap)>): seq<Packet> {
    if acks == [] then []
    else AckPackets(c, acks[..|acks| - 1]) + c.Sends(Ack(acks[|acks| - 1].0, acks[|acks| - 1].1))
  }

  function DataEvents(messages: seq<Message>): seq<Event> {
    seq(|messages|, i requires 0 <= i < |messages| => DataEvent(messages[i].1))
  }

  ghost predicate TickMayPanic(pending: Pending, now: nat) {
    exists s :: s in pending && pending[s].Due(now) && pending[s].MayPanic()
  }

  /** The repair rounds of a tick, message by message. */
  ghost predicate RepairsOf(repairs: seq<Fragment>, sets: Sets, now: nat)
    requires ValidSets(sets)
  {
    forall s: u32 :: OfMessage(repairs, s) == Round(sets, s, now)
  }

  /** `p` carries a fragment, or an acknowledgement, that the socket takes. */
  predicate TakesFragment(c: Conn, p: Packet) { p.variant.FragmentPacket? && c.Admits(p) }
  predicate TakesAck(c: Conn, p: Packet) { p.variant.Ack? && c.Admits(p) }

  /** The messages a packet completes. */
  function Completed(c: Conn, pending: Pending, p: Packet, now: nat, cipherOf: CipherOf, lead: Fragment): seq<Message> {
    if TakesFragment(c, p) then PushOutput(pending, p.variant.fragment, now, CipherFor(c.secret, cipherOf), lead)
    else []
  }

  function PendingAfter(c: Conn, pending: Pending, p: Packet, now: nat, cipherOf: CipherOf, lead: Fragment): Pending {
    if TakesFragment(c, p) then PushPending(pending, p.variant.fragment, now, CipherFor(c.secret, cipherOf), lead)
    else pending
  }

  function SetsAfter(c: Conn, sets: Sets, p: Packet, now: nat): Sets {
    if TakesAck(c, p) && p.variant.seqId in sets
      then sets[p.variant.seqId := sets[p.variant.seqId].AckReceived(p.variant.ack, now)]
    else sets
  }

  /** Connection, assembler and tracker after a packet. */
  function Added(before: (Conn, Pending, Sets), p: Packet, now: nat, env: Env, cipherOf: CipherOf, lead: Fragment)
    : (Conn, Pending, Sets)
  {
    var (c, pending, sets) := before;
    var c' := Apply(c, Receive(p, now), env).conn;
    (c'.(events := c'.events + DataEvents(Completed(c, pending, p, now, cipherOf, lead))),
     PendingAfter(c, pending, p, now, cipherOf, lead), SetsAfter(c, sets, p, now))
  }

  /** A sealed message of one fragment from the peer is opened with the shared key, and dropped without one. */
  lemma SealedArrives(before: (Conn, Pending, Sets), p: Packet, now: nat, env: Env, cipherOf: CipherOf)
    requires p.variant.FragmentPacket? && p.src == before.0.otherKey[..4] && p.dst == before.0.selfKey[..4]
    requires var f := p.variant.fragment; f.fragId == f.fragTotal == 0 && IsEncrypted(f.flags) && f.seqId !in before.1
    ensures var (f, after) := (p.variant.fragment, Added(before, p, now, env, cipherOf, p.variant.fragment));
      var plain := if before.0.secret.Shared? then cipherOf(before.0.secret.key)(f.seqId, f.data) else None;
      && after.0.events == before.0.events + (if plain.Some? then [DataEvent(plain.value)] else [])
      && (f.seqId in after.1 <==> plain.Some?)
  {
    var f := p.variant.fragment;
    var m := Gathered(Lookup(before.1, f.seqId), f);
    assert m == map[0 := f] && m[0] == f && |m| == 1;
    assert Joined(m, 0) == [] && Joined(m, 1) == [] + f.data == f.data;
    assert Apply(before.0, Receive(p, now), env).conn.events == before.0.events;
    assert before.0.events + DataEvents([]) == before.0.events;
  }

  /** Every acknowledgement was sent at `now` or before. */
  ghost predicate AckedBy(pending: Pending, now: nat) {
    forall s :: s in pending && pending[s].lastSentAck.Some? ==> pending[s].lastSentAck.value <= now
  }

  lemma PushAckedBy(pending: Pending, f: Fragment, now: nat, cipher: Option<Cipher>, lead: Fragment)
    requires AckedBy(pending, now)
    ensures AckedBy(PushPending(pending, f, now, cipher, lead), now)
  {
    hide Transformed;
  }

  lemma TickAckedBy(pending: Pending, now: nat)
    requires AckedBy(pending, now)
    ensures AckedBy(TickPending(pending, now), now)
  {}

  class Socket {
    const env: Env
    const cipherOf: CipherOf
    const assembler: FragmentAssembler
    const tracker: SentDataTracker
    const selfPubKey: PubKey
    var status: Status
    var secret: Secret
    var otherPubKey: PubKey
    var lastSentMessage: nat
    var lastReceivedMessage: nat
    var cachedNow: nat
    var events: seq<Event>
    var nextLocalSeqId: u32
    ghost var sends: nat
    var out: seq<Packet>

    /**
     * No message waits in the assembler, no acknowledgement was sent later than the socket's clock, and
     * every tracked id has been used by one of the `sends` so far.
     */
    ghost predicate Valid()
      reads this, assembler, tracker
    {
      && assembler.Valid() && assembler.outMessages == [] && AckedBy(assembler.pendingFragments, cachedNow)
      && tracker.Valid() && nextLocalSeqId == sends % U32_COUNT && (forall s :: s in tracker.sets ==> s < sends)
    }

    ghost function View(): Conn
      reads this
    {
      Conn(status, selfPubKey, secret, otherPubKey, lastReceivedMessage, events)
    }

    constructor Connecting(env: Env, cipherOf: CipherOf, priv: PrivKey, now: nat)
      ensures Valid() && fresh(assembler) && fresh(tracker)
      ensures View() == NewConnecting(env.curve, priv, now) && nextLocalSeqId == sends == 0 && cachedNow == now
      ensures assembler.pendingFragments == map[] && tracker.sets == map[]
      ensures out == View().Sends(Syn(selfPubKey))
    {
      this.env, this.cipherOf := env, cipherOf;
      assembler := new FragmentAssembler();
      tracker := new SentDataTracker();
      selfPubKey := env.curve.public(priv);
      status := SynSent(now);
      secret := Ours(priv);
      otherPubKey := NO_KEY;
      lastSentMessage, lastReceivedMessage, cachedNow := now, now, now;
      events := [];
      nextLocalSeqId := 0;
      sends := 0;
      out := [];
      new;
      SendPacket(Syn(selfPubKey));
    }

    /** The server's end, made from the key in a Syn. */
    constructor Incoming(env: Env, cipherOf: CipherOf, priv: PrivKey, other: PubKey, now: nat)
      ensures Valid() && fresh(assembler) && fresh(tracker)
      ensures View() == NewConnected(env.curve, priv, other, now) && nextLocalSeqId == sends == 0 && cachedNow == now
      ensures assembler.pendingFragments == map[] && tracker.sets == map[]
      ensures out == View().Sends(SynAck(selfPubKey))
    {
      this.env, this.cipherOf := env, cipherOf;
      assembler := new FragmentAssembler();
      tracker := new SentDataTracker();
      selfPubKey := env.curve.public(priv);
      status := SynReceived;
      secret := Ours(priv).Agree(env.curve, other);
      otherPubKey := other;
      lastSentMessage, lastReceivedMessage, cachedNow := now, now, now;
      events := [];
      nextLocalSeqId := 0;
      sends := 0;
      out := [];
      new;
      SendPacket(SynAck(selfPubKey));
      SetStatus(Status.Connected);
    }

    /** Moves the clock; one that really goes forward is past every acknowledgement, as a tick needs. */
    method UpdateCachedNow(now: nat)
      requires Valid()
      modifies this`cachedNow
      ensures cachedNow == now
      ensures old(cachedNow) <= now ==> Valid()
      ensures old(cachedNow) < now ==> ClockPast(assembler.pendingFragments, cachedNow)
    {
      cachedNow := now;
    }

    method SetStatus(newStatus: Status)
      modifies this`status, this`events
      ensures View() == old(View()).WithStatus(newStatus)
    {
      status := newStatus;
      events := events + newStatus.Events();
    }

    method SendPacket(v: Variant)
      modifies this`lastSentMessage, this`out
      ensures lastSentMessage == cachedNow && out == old(out) + View().Sends(v)
    {
      lastSentMessage := cachedNow;
      if !status.IsDisconnected() {
        out := out + [Packet(selfPubKey[..4], otherPubKey[..4], v)];
      }
    }

    method SendFragments(fragments: seq<Fragment>)
      modifies this`lastSentMessage, this`out
      ensures out == old(out) + FragmentPackets(View(), fragments)
      ensures lastSentMessage == if fragments == [] then old(lastSentMessage) else cachedNow
    {
      for n := 0 to |fragments|
        invariant out == old(out) + FragmentPackets(View(), fragments[..n])
        invariant lastSentMessage == if n == 0 then old(lastSentMessage) else cachedNow
      {
        assert fragments[..n + 1][..n] == fragments[..n];
        SendPacket(FragmentPacket(fragments[n]));
      }
      assert fragments[..|fragments|] == fragments;
    }

    method SendAcks(acks: seq<(u32, Bitmap)>)
      modifies this`lastSentMessage, this`out
      ensures out == old(out) + AckPackets(View(), acks)
      ensures lastSentMessage == if acks == [] then old(lastSentMessage) else cachedNow
    {
      for n := 0 to |acks|
        invariant out == old(out) + AckPackets(View(), acks[..n])
        invariant lastSentMessage == if n == 0 then old(lastSentMessage) else cachedNow
      {
        assert acks[..n + 1][..n] == acks[..n];
        SendPacket(Ack(acks[n].0, acks[n].1));
      }
      assert acks[..|acks|] == acks;
    }

    /**
     * Sends a message under the next id, which is used up even when the message is refused. The counter
     * wraps; `panicked` says that it came back to an id that is still tracked, which takes 2^32 sends.
     */
    method SendData(data: seq<byte>, options: SendOptions) returns (r: SendResult, seqId: u32, panicked: bool)
      requires Valid()
      modifies this`nextLocalSeqId, this`sends, this`lastSentMessage, this`out, tracker
      ensures seqId == old(nextLocalSeqId) && nextLocalSeqId == (old(nextLocalSeqId) + 1) % U32_COUNT
      ensures sends == old(sends) + 1
      ensures panicked <==> options.key && Sendable(data) && seqId in old(tracker.sets)
      ensures panicked ==> old(sends) >= U32_COUNT
      ensures !panicked ==> Valid()
      ensures r.Ok? <==> Sendable(data)
      ensures r.Ok? ==> out == old(out) + FragmentPackets(View(), FragmentsOf(data, seqId, SendFlags(options)))
      ensures r.Ok? && options.key && !panicked ==>
        tracker.sets == old(tracker.sets)[seqId := NewSentSet(data, cachedNow, options)]
      ensures r.Ok? && !options.key ==> tracker.sets == old(tracker.sets)
      ensures r.Err? ==> out == old(out) && tracker.sets == old(tracker.sets)
      ensures lastSentMessage == if r.Ok? then cachedNow else old(lastSentMessage)
    {
      hide FragmentsOf;
      hide FragmentPackets;
      hide SendFlags;
      hide NewSentSet;
      hide Sendable;
      FreshId(sends, tracker.sets);
      seqId := nextLocalSeqId;
      nextLocalSeqId := (nextLocalSeqId + 1) % U32_COUNT;
      sends := sends + 1;
      panicked := options.key && Sendable(data) && seqId in tracker.sets;
      if panicked {
        var built := BuildFragmentsFromBytes(data, seqId, SendFlags(options), false);
        SendFragments(built.fragments);
        return SendResult.Ok, seqId, true;
      }
      var sent;
      r, sent := tracker.SendData(seqId, data, cachedNow, options);
      SendFragments(sent);
      NoRepairs(View());
    }

    method SendEnd()
      modifies this`lastSentMessage, this`out, this`status, this`events
      ensures var o := Apply(old(View()), Terminate(false, LastSeqId(), cachedNow), env);
        View() == o.conn && out == old(out) + o.sent && lastSentMessage == cachedNow
    {
      SendPacket(End(LastSeqId()));
      SetStatus(TerminateSent(cachedNow));
    }

    method Abort()
      modifies this`lastSentMessage, this`out, this`status, this`events
      ensures var o := Apply(old(View()), Terminate(true, LastSeqId(), cachedNow), env);
        View() == o.conn && out == old(out) + o.sent && lastSentMessage == cachedNow
    {
      SendPacket(Variant.Abort(LastSeqId()));
      SetStatus(TerminateSent(cachedNow));
    }

    /** The id of the last send, or zero before the first one and whenever the counter has just come round. */
    function LastSeqId(): (s: u32)
      reads this`nextLocalSeqId
      ensures nextLocalSeqId == 0 ==> s == 0
      ensures nextLocalSeqId != 0 ==> s + 1 == nextLocalSeqId
    {
      if nextLocalSeqId == 0 then 0 else nextLocalSeqId - 1
    }

    method CheckPacketOrigin(p: Packet) returns (valid: bool)
      modifies this`events
      ensures valid == old(View()).Admits(p)
      ensures valid <==>
        p.variant.Syn? || (p.dst == selfPubKey[..4] && (p.variant.SynAck? || p.src == otherPubKey[..4]))
      ensures events == if !valid && env.transferRaw then old(events) + [RawEvent(Wire(p, env.crc))] else old(events)
    {
      match p.variant {
        case Syn(_) => valid := true;
        case SynAck(_) => valid := selfPubKey[..4] == p.dst;
        case _ => valid := selfPubKey[..4] == p.dst && otherPubKey[..4] == p.src;
      }
      if !valid && env.transferRaw {
        var bytes := ToBytes(p, env.crc);
        events := events + [RawEvent(bytes[..])];
      }
    }

    /**
     * Takes one packet. Whatever it completes is handed to the user at once: nothing stays behind in
     * the assembler. `lead` is the fragment that decides how a full set is read.
     */
    method AddPacket(p: Packet) returns (ghost lead: Fragment)
      requires Valid() && Printable(p.variant)
      modifies this, assembler, tracker
      ensures Valid()
      ensures TakesFragment(old(View()), p) ==>
        lead in Gathered(Lookup(old(assembler.pendingFragments), p.variant.fragment.seqId), p.variant.fragment).Values
      ensures Packed() == Added(old(Packed()), p, cachedNow, env, cipherOf, lead)
      ensures p.variant.Ack? && p.src == old(otherPubKey)[..4] && p.dst == selfPubKey[..4] ==>
        forall s :: s in old(tracker.sets) ==>
          && s in tracker.sets
          && tracker.sets[s].lastReceivedAck
             == if s == p.variant.seqId then Some(ReceivedAck(cachedNow, p.variant.ack))
                else old(tracker.sets)[s].lastReceivedAck
      ensures out == old(out) + Apply(old(View()), Receive(p, cachedNow), env).sent
      ensures cachedNow == old(cachedNow) && nextLocalSeqId == old(nextLocalSeqId) && sends == old(sends)
      ensures lastSentMessage == if p.variant.Syn? then cachedNow else old(lastSentMessage)
    {
      hide AckedBy;
      hide PushPending;
      hide PushOutput;
      hide Gathered;
      hide Lookup;
      hide Wire;
      hide DataEvents;
      hide ValidPending;
      lead := Fragment(0, 0, 0, 0, []);
      lastReceivedMessage := cachedNow;
      var valid := CheckPacketOrigin(p);
      NothingAdded(events);
      if !valid {
        return;
      }
      match p.variant {
        case FragmentPacket(f) =>
          lead := TakeFragment(f);
        case Ack(seqId, ack) =>
          tracker.ReceiveAck(seqId, ack, cachedNow);
        case _ =>
          TakeControl(p);
          NothingAdded(events);
      }
    }

    /** Bytes from the peer's address: a packet, or nothing the parser can read. */
    method AddReceivedBytes(bytes: seq<byte>) returns (ghost lead: Fragment)
      requires Valid()
      modifies this, assembler, tracker
      ensures Valid() && cachedNow == old(cachedNow) && nextLocalSeqId == old(nextLocalSeqId) && sends == old(sends)
      ensures match FromBytes(bytes, env.crc) {
        case Ok(p) =>
          && (TakesFragment(old(View()), p) ==>
                lead in Gathered(Lookup(old(assembler.pendingFragments), p.variant.fragment.seqId),
                                 p.variant.fragment).Values)
          && Packed() == Added(old(Packed()), p, cachedNow, env, cipherOf, lead)
          && out == old(out) + Apply(old(View()), Receive(p, cachedNow), env).sent
        case Err(_) =>
          && Packed()
             == (if env.transferRaw then old(View()).(events := old(events) + [RawEvent(bytes)]) else old(View()),
                          old(assembler.pendingFragments), old(tracker.sets))
          && out == old(out)
      }
    {
      lead := Fragment(0, 0, 0, 0, []);
      match FromBytes(bytes, env.crc) {
        case Ok(p) =>
          PrintAfterParse(bytes, env.crc);
          lead := AddPacket(p);
        case Err(_) =>
          if env.transferRaw {
            events := events + [RawEvent(bytes)];
          }
      }
    }

    ghost function Packed(): (Conn, Pending, Sets)
      reads this, assembler, tracker
    {
      (View(), assembler.pendingFragments, tracker.sets)
    }

    method TakeControl(p: Packet)
      requires View().Admits(p) && !p.variant.FragmentPacket? && !p.variant.Ack?
      modifies this`status, this`events, this`secret, this`otherPubKey, this`lastSentMessage, this`out
      ensures var o := Received(old(View()), p, cachedNow, env);
        View() == o.conn && out == old(out) + o.sent
      ensures lastSentMessage == if p.variant.Syn? then cachedNow else old(lastSentMessage)
    {
      match p.variant {
        case Heartbeat =>
        case Syn(_) =>
          SendPacket(SynAck(selfPubKey));
        case SynAck(key) =>
          if status.SynSent? {
            otherPubKey := key;
            secret := secret.Agree(env.curve, otherPubKey);
            SetStatus(Status.Connected);
          }
        case End(_) =>
          SetStatus(TerminateReceived(cachedNow));
          events := events + [EndedEvent];
        case Abort(_) =>
          SetStatus(TerminateReceived(cachedNow));
          events := events + [AbortedEvent];
      }
    }

    method TakeFragment(f: Fragment) returns (ghost lead: Fragment)
      requires Valid() && WellFormed(f)
      modifies this`events, assembler
      ensures Valid()
      ensures lead in Gathered(Lookup(old(assembler.pendingFragments), f.seqId), f).Values
      ensures assembler.pendingFragments
        == PushPending(old(assembler.pendingFragments), f, cachedNow, CipherFor(secret, cipherOf), lead)
      ensures events
        == old(events)
          + DataEvents(PushOutput(old(assembler.pendingFragments), f, cachedNow, CipherFor(secret, cipherOf), lead))
    {
      ghost var before := assembler.pendingFragments;
      lead := assembler.Push(f, cachedNow, CipherFor(secret, cipherOf));
      PushAckedBy(before, f, cachedNow, CipherFor(secret, cipherOf), lead);
      var message := assembler.NextOutMessage();
      if message.Some? {
        events := events + [DataEvent(message.value.1)];
      }
    }

    /** What the connection sends of its own accord at a tick: a heartbeat, or the Syn again. */
    ghost function Beat(before: Conn, acked: bool, lastSent: nat): seq<Packet>
      reads this`cachedNow
    {
      var o := Ticked(before, cachedNow, env);
      var last := if acked then cachedNow else lastSent;
      if o.conn.status.Connected? && Since(cachedNow, last) > env.heartbeatDelay then o.conn.Sends(Heartbeat)
      else o.sent
    }

    /** A connected socket that does not time out sends a heartbeat exactly when quiet for longer than the delay. */
    lemma BeatExactly(before: Conn, acked: bool, lastSent: nat)
      requires before.status.Connected?
      requires (if cachedNow < before.lastReceived then 0 else cachedNow - before.lastReceived) < env.timeoutDelay
      ensures Beat(before, acked, lastSent) ==
        if !acked && cachedNow > lastSent + env.heartbeatDelay
        then [Packet(before.selfKey[..4], before.otherKey[..4], Heartbeat)] else []
    {}

    ghost function TickOut(sent: seq<Packet>, before: Conn, after: Conn, acks: seq<(u32, Bitmap)>, lastSent: nat,
                           repairs: seq<Fragment>): seq<Packet>
      reads this`cachedNow
    {
      sent + AckPackets(after, acks) + Beat(before, acks != [] && !after.status.IsDisconnected(), lastSent)
      + FragmentPackets(after, repairs)
    }

    /** The tick sends something. */
    ghost predicate Talks(before: Conn, after: Conn, acks: seq<(u32, Bitmap)>, lastSent: nat, repairs: seq<Fragment>)
      reads this`cachedNow
    {
      || (acks != [] && !after.status.IsDisconnected())
      || Beat(before, acks != [] && !after.status.IsDisconnected(), lastSent) != []
      || repairs != []
    }

    method TimeOut()
      modifies this`status, this`events
      ensures View() == TimedOut(old(View()), cachedNow, env)
    {
      var ago := Since(cachedNow, lastReceivedMessage);
      if ago >= env.timeoutDelay && !status.IsFinished() {
        SetStatus(TimeoutError(cachedNow, ago));
      }
    }

    method SendRepairs() returns (ghost repairs: seq<Fragment>)
      requires Valid()
      modifies this`lastSentMessage, this`out, tracker
      ensures Valid()
      ensures tracker.sets == TickSets(old(tracker.sets), cachedNow) && RepairsOf(repairs, old(tracker.sets), cachedNow)
      ensures out == old(out) + FragmentPackets(View(), repairs)
      ensures lastSentMessage == if repairs == [] then old(lastSentMessage) else cachedNow
    {
      var sent := tracker.NextTick(cachedNow);
      SendFragments(sent);
      repairs := sent;
    }

    /** A heartbeat when connected and quiet for long; the Syn again when it stays unanswered. */
    method SendBeat()
      modifies this`status, this`events, this`lastSentMessage, this`out
      ensures View() == ResentSyn(old(View()), cachedNow).conn
      ensures out == old(out) + (
        if old(status).Connected? && Since(cachedNow, old(lastSentMessage)) > env.heartbeatDelay
          then old(View()).Sends(Heartbeat)
        else ResentSyn(old(View()), cachedNow).sent)
      ensures lastSentMessage == if |out| == |old(out)| then old(lastSentMessage) else cachedNow
    {
      if status.Connected? {
        if Since(cachedNow, lastSentMessage) > env.heartbeatDelay {
          SendPacket(Heartbeat);
        }
      } else if status.SynSent? && cachedNow > status.at + SYN_RESEND_DELAY {
        SendPacket(Syn(selfPubKey));
        SetStatus(SynSent(cachedNow));
      }
    }

    /**
     * One tick, after the clock moved: acknowledgements, then heartbeat or Syn, then repairs; a socket
     * that is disconnected sends none of them and forgets nothing. `ok` is false when an
     * acknowledgement panicked.
     */
    method InnerTick() returns (ok: bool, ghost acks: seq<(u32, Bitmap)>, ghost repairs: seq<Fragment>)
      requires Valid() && ClockPast(assembler.pendingFragments, cachedNow)
      modifies this, assembler, tracker
      ensures ok ==> Valid()
      ensures !ok ==> TickMayPanic(old(assembler.pendingFragments), cachedNow)
      ensures cachedNow == old(cachedNow) && nextLocalSeqId == old(nextLocalSeqId) && sends == old(sends)
      ensures ok ==> View() == Ticked(old(View()), cachedNow, env).conn
      ensures ok ==> assembler.pendingFragments == TickPending(old(assembler.pendingFragments), cachedNow)
      ensures ok ==> AcksOf(acks, old(assembler.pendingFragments), cachedNow, old(assembler.pendingFragments).Keys)
      ensures ok && status.IsDisconnected() ==> tracker.sets == old(tracker.sets) && repairs == []
      ensures ok && !status.IsDisconnected() ==> tracker.sets == TickSets(old(tracker.sets), cachedNow)
      ensures ok && !status.IsDisconnected() ==> RepairsOf(repairs, old(tracker.sets), cachedNow)
      ensures ok ==> out == TickOut(old(out), old(View()), View(), acks, old(lastSentMessage), repairs)
      ensures ok && Talks(old(View()), View(), acks, old(lastSentMessage), repairs) ==> lastSentMessage == cachedNow
      ensures ok && !Talks(old(View()), View(), acks, old(lastSentMessage), repairs) ==>
        lastSentMessage == old(lastSentMessage)
    {
      hide AckPackets;
      hide FragmentPackets;
      hide TickPending;
      hide TickSets;
      hide RepairsOf;
      hide AcksOf;
      hide AckedBy;
      hide ClockPast;
      hide ValidPending;
      repairs := [];
      TickAckedBy(assembler.pendingFragments, cachedNow);
      var ticked := assembler.Tick(cachedNow);
      if ticked.None? {
        return false, [], [];
      }
      acks := ticked.value;
      TimeOut();
      ghost var timed, outBefore := View(), out;
      if !status.IsDisconnected() {
        SendAcks(ticked.value);
      }
      SilentAcks(timed, acks);
      assert out == outBefore + AckPackets(timed, acks);
      SendBeat();
      SameSends(timed, View(), acks);
      if !status.IsDisconnected() {
        repairs := SendRepairs();
      } else {
        NoRepairs(View());
      }
      ok := true;
    }
  }

  /** The counter meets a tracked id only after it has gone all the way round. */
  lemma FreshId(sends: nat, sets: Sets)
    requires forall s :: s in sets ==> s < sends
    ensures sends % U32_COUNT in sets ==> sends >= U32_COUNT
    ensures (sends % U32_COUNT + 1) % U32_COUNT == (sends + 1) % U32_COUNT
    ensures sends % U32_COUNT < sends + 1
  {}

  lemma NothingAdded(events: seq<Event>)
    ensures events + DataEvents([]) == events
  {}

  lemma NoRepairs(c: Conn)
    ensures FragmentPackets(c, []) == []
  {}

  /** A socket that is not disconnected sends every fragment, and every acknowledgement, in order. */
  lemma {:induction false} AllFragmentsSent(c: Conn, fragments: seq<Fragment>)
    requires !c.status.IsDisconnected()
    ensures |FragmentPackets(c, fragments)| == |fragments|
    ensures forall i :: 0 <= i < |fragments| ==>
      FragmentPackets(c, fragments)[i] == Packet(c.selfKey[..4], c.otherKey[..4], FragmentPacket(fragments[i]))
  {
    if fragments != [] { AllFragmentsSent(c, fragments[..|fragments| - 1]); }
  }

  lemma {:induction false} AllAcksSent(c: Conn, acks: seq<(u32, Bitmap)>)
    requires !c.status.IsDisconnected()
    ensures |AckPackets(c, acks)| == |acks|
    ensures forall i :: 0 <= i < |acks| ==>
      AckPackets(c, acks)[i] == Packet(c.selfKey[..4], c.otherKey[..4], Ack(acks[i].0, acks[i].1))
  {
    if acks != [] { AllAcksSent(c, acks[..|acks| - 1]); }
  }

  lemma {:induction false} SilentAcks(c: Conn, acks: seq<(u32, Bitmap)>)
    ensures c.status.IsDisconnected() ==> AckPackets(c, acks) == []
  {
    if acks != [] { SilentAcks(c, acks[..|acks| - 1]); }
  }

  lemma {:induction false} SameSends(c: Conn, d: Conn, acks: seq<(u32, Bitmap)>)
    requires c.selfKey == d.selfKey && c.otherKey == d.otherKey
    requires (c.status.IsDisconnected() <==> d.status.IsDisconnected())
    ensures AckPackets(c, acks) == AckPackets(d, acks)
  {
    if acks != [] { SameSends(c, d, acks[..|acks| - 1]); }
  }
}
