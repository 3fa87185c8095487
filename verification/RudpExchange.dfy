/**
 * A whole exchange between two sockets: the client connects, sends a message, every fragment and the
 * acknowledgement get through, and the client reports the message received.
 */
module RudpExchange {
  import opened Prelude
  import opened AckBitmap
  import opened Fragmentation
  import opened Assembler
  import opened SentData
  import opened Packet
  import opened Connection
  import opened RudpSocket
  import opened RudpLink
  import D = Delivery
  import G = DeliveryGap

  /** The private keys of the client and of the server's socket. */
  datatype Setting = Setting(env: Env, cipherOf: CipherOf, privA: PrivKey, privB: PrivKey)
  {
    function KeyA(): PubKey { env.curve.public(privA) }
    function KeyB(): PubKey { env.curve.public(privB) }

    function Server(): Conn { NewConnected(env.curve, privB, KeyA(), 0) }

    /** The client once it has taken the server's answer. */
    function Client(): Conn {
      Conn(Status.Connected, KeyA(), Shared(env.curve.agree(privA, KeyB())), KeyB(), 0, [ConnectedEvent])
    }

    function FromA(v: Variant): Packet { Packet(KeyA()[..4], KeyB()[..4], v) }
    function FromB(v: Variant): Packet { Packet(KeyB()[..4], KeyA()[..4], v) }

    function SynBytes(): seq<byte> {
      Wire(Packet(KeyA()[..4], NewConnecting(env.curve, privA, 0).otherKey[..4], Syn(KeyA())), env.crc)
    }

    function SynAckBytes(): seq<byte> { Wire(FromB(SynAck(KeyB())), env.crc) }

    function FragmentBytes(data: seq<byte>, n: u8): seq<byte>
      requires Sendable(data)
    {
      Wire(FromA(FragmentPacket(First(data, n))), env.crc)
    }

    function AckBytes(data: seq<byte>): seq<byte>
      requires Sendable(data)
    {
      Wire(FromB(AckOf(data)), env.crc)
    }
  }

  function First(data: seq<byte>, n: u8): Fragment
    requires Sendable(data)
  {
    FragmentAt(data, 0, SendFlags(G.OPTIONS), n)
  }

  function AckOf(data: seq<byte>): Variant
    requires Sendable(data)
  {
    Ack(0, CreateComplete(FragTotal(data)))
  }

  /** Stands for the fragment that decides how a set is read, where none is. */
  const NO_FRAGMENT := Fragment(0, 0, 0, 0, [])

  // ----- The states of the exchange -----

  function Connected(w: Setting): Link {
    Link(Fresh(w.Client()), Fresh(w.Server()), {w.SynAckBytes()}, {w.SynBytes()})
  }

  function AllPackets(w: Setting, data: seq<byte>): seq<Packet>
    requires Sendable(data)
  {
    FragmentPackets(w.Client(), FragmentsOf(data, 0, SendFlags(G.OPTIONS)))
  }

  /** The client has sent the message; `sets` is what it tracks. */
  function Sender(w: Setting, data: seq<byte>, sets: Sets): End {
    End.End(w.Client(), map[], sets, 1, map[0 := data], [])
  }

  /** The first `n` fragments have arrived, but not the last one. */
  function PartlyArrived(w: Setting, data: seq<byte>, n: nat): Link
    requires Sendable(data) && n <= FragTotal(data)
  {
    Link(Sender(w, data, map[0 := NewSentSet(data, 0, G.OPTIONS)]),
         End.End(w.Server(), G.Received(data, n), map[], 0, map[], []),
         {w.SynAckBytes()}, {w.SynBytes()} + Printed(AllPackets(w, data), w.env.crc))
  }

  function CompleteSet(data: seq<byte>): AssemblySet
    requires Sendable(data)
  {
    AssemblySet(Complete(0, FragTotal(data)), SendFlags(G.OPTIONS), None, 0, 0)
  }

  function Receiver(w: Setting, data: seq<byte>, set_: AssemblySet): End {
    var events := [ConnectedEvent, DataEvent(data)];
    End.End(Conn(Status.Connected, w.KeyB(), w.Server().secret, w.KeyA(), 0, events), map[0 := set_], map[], 0, map[],
            [(0, data)])
  }

  function Delivered(w: Setting, data: seq<byte>): Link
    requires Sendable(data)
  {
    Link(PartlyArrived(w, data, 0).a, Receiver(w, data, CompleteSet(data)),
         PartlyArrived(w, data, 0).toA, PartlyArrived(w, data, 0).toB)
  }

  function Acknowledged(w: Setting, data: seq<byte>, sets: Sets): Link
    requires Sendable(data)
  {
    Link(Sender(w, data, sets), Receiver(w, data, CompleteSet(data).AckSent(0)),
         {w.SynAckBytes(), w.AckBytes(data)}, Delivered(w, data).toB)
  }

  function Unanswered(data: seq<byte>): Sets
    requires Sendable(data)
  {
    map[0 := NewSentSet(data, 0, G.OPTIONS)]
  }

  function Answered(data: seq<byte>): Sets
    requires Sendable(data)
  {
    map[0 := NewSentSet(data, 0, G.OPTIONS).AckReceived(CreateComplete(FragTotal(data)), 0)]
  }

  function Known(data: seq<byte>): Sets
    requires Sendable(data)
  {
    map[0 := Answered(data)[0].AfterResend(0)]
  }

  // ----- The steps -----

  lemma Starts(w: Setting)
    ensures Start(w.env, w.privA, w.privB, 0, 0)
      == Link(Fresh(NewConnecting(w.env.curve, w.privA, 0)), Fresh(w.Server()), {w.SynAckBytes()}, {w.SynBytes()})
  {
    hide Wire;
    var a, b := NewConnecting(w.env.curve, w.privA, 0), w.Server();
    assert a.Sends(Syn(a.selfKey)) == [Packet(a.selfKey[..4], a.otherKey[..4], Syn(a.selfKey))];
    assert b.Sends(SynAck(b.selfKey)) == [w.FromB(SynAck(w.KeyB()))];
    OnePacket(a.Sends(Syn(a.selfKey))[0], w.env.crc);
    OnePacket(b.Sends(SynAck(b.selfKey))[0], w.env.crc);
  }

  lemma Connects(w: Setting)
    ensures Apply(NewConnecting(w.env.curve, w.privA, 0), Receive(w.FromB(SynAck(w.KeyB())), 0), w.env)
      == Outcome(w.Client(), [])
  {
    hide Wire;
    var a, p := NewConnecting(w.env.curve, w.privA, 0), w.FromB(SynAck(w.KeyB()));
    assert a.Admits(p);
    assert a.events + [ConnectedEvent] == [ConnectedEvent];
  }

  /** What taking a control packet or an acknowledgement does to an end whose connection becomes `c`. */
  lemma TakesOther(e: End, p: Packet, c: Conn, w: Setting, lead: Fragment)
    requires Printable(p.variant) && !p.variant.FragmentPacket?
    requires Apply(e.conn, Receive(p, 0), w.env) == Outcome(c, [])
    ensures LeadExists(e, Wire(p, w.env.crc), w.env, lead)
    ensures ReadBytes(e, Wire(p, w.env.crc), 0, w.env, w.cipherOf, lead)
      == (e.(conn := c, sets := SetsAfter(e.conn, e.sets, p, 0)), [])
  {
    hide Wire;
    hide Apply;
    hide SetsAfter;
    ParseAfterPrint(p, w.env.crc);
    assert c.events + DataEvents([]) == c.events;
    var none: seq<Message> := [];
    assert e.outputs + none == e.outputs;
  }

  lemma TakesSynAck(w: Setting)
    ensures LinkStep(Start(w.env, w.privA, w.privB, 0, 0), true, Take(w.SynAckBytes(), 0, NO_FRAGMENT), [],
                     w.env, w.cipherOf, Connected(w))
  {
    hide ReadBytes;
    hide LeadExists;
    hide Start;
    hide Apply;
    hide Wire;
    var e, p := Fresh(NewConnecting(w.env.curve, w.privA, 0)), w.FromB(SynAck(w.KeyB()));
    Starts(w);
    Connects(w);
    TakesOther(e, p, w.Client(), w, NO_FRAGMENT);
    assert SetsAfter(e.conn, e.sets, p, 0) == e.sets;
    NothingPrinted(w.env.crc);
    assert {w.SynBytes()} + {} == {w.SynBytes()};
  }

  lemma OnePacket(p: Packet, crc: Crc)
    ensures Printed([p], crc) == {Wire(p, crc)}
  {
    assert p in [p];
  }

  lemma SendsMessage(w: Setting, data: seq<byte>)
    requires Sendable(data)
    ensures LinkStep(Connected(w), true, Send(data, G.OPTIONS, 0), AllPackets(w, data), w.env, w.cipherOf,
                     PartlyArrived(w, data, 0))
  {
    hide FragmentPackets;
    hide FragmentsOf;
    hide Printed;
    assert map[][0 := data] == map[0 := data];
    assert map[][0 := NewSentSet(data, 0, G.OPTIONS)] == map[0 := NewSentSet(data, 0, G.OPTIONS)];
  }

  /** Every fragment of the message is among the packets sent. */
  lemma FragmentOnItsWay(w: Setting, data: seq<byte>, n: u8)
    requires Sendable(data) && n <= FragTotal(data)
    ensures w.FragmentBytes(data, n) in PartlyArrived(w, data, 0).toB
  {
    var all := FragmentsOf(data, 0, SendFlags(G.OPTIONS));
    AllFragmentsSent(w.Client(), all);
    assert AllPackets(w, data)[n] == w.FromA(FragmentPacket(First(data, n)));
    assert AllPackets(w, data)[n] in AllPackets(w, data);
  }

  /** What taking a fragment does to the server's end, whose connection stays as it is. */
  lemma ServerTakes(w: Setting, data: seq<byte>, n: u8, e: End, cipher: Option<Cipher>)
    requires Sendable(data) && n <= FragTotal(data) && e.conn == w.Server()
    requires cipher == CipherFor(w.Server().secret, w.cipherOf)
    ensures var f := First(data, n);
      ReadBytes(e, w.FragmentBytes(data, n), 0, w.env, w.cipherOf, f)
      == (e.(conn := w.Server().(events := w.Server().events + DataEvents(PushOutput(e.pending, f, 0, cipher, f))),
             pending := PushPending(e.pending, f, 0, cipher, f),
             outputs := e.outputs + PushOutput(e.pending, f, 0, cipher, f)), [])
    ensures LeadExists(e, w.FragmentBytes(data, n), w.env, First(data, n))
  {
    hide PushPending;
    hide PushOutput;
    hide FragmentAt;
    var f := First(data, n);
    var p := w.FromA(FragmentPacket(f));
    assert f.fragId == n && f.fragTotal == FragTotal(data) by { IdAndTotal(data, n); }
    ParseAfterPrint(p, w.env.crc);
    assert w.Server().Admits(p) && TakesFragment(e.conn, p);
    var m := Gathered(Lookup(e.pending, f.seqId), f);
    assert f.fragId in m && m[f.fragId] == f;
    assert Apply(e.conn, Receive(p, 0), w.env) == Outcome(w.Server(), []);
  }

  lemma IdAndTotal(data: seq<byte>, n: u8)
    requires Sendable(data)
    ensures First(data, n).fragId == n && First(data, n).fragTotal == FragTotal(data) && First(data, n).seqId == 0
    ensures First(data, n).flags == SendFlags(G.OPTIONS)
  {}

  /** An end that takes bytes and answers nothing. */
  lemma TakeStep(w: Setting, l: Link, byA: bool, bytes: seq<byte>, lead: Fragment, e: End)
    requires bytes in (if byA then l.toA else l.toB) && LeadExists(if byA then l.a else l.b, bytes, w.env, lead)
    requires ReadBytes(if byA then l.a else l.b, bytes, 0, w.env, w.cipherOf, lead) == (e, [])
    ensures LinkStep(l, byA, Take(bytes, 0, lead), [], w.env, w.cipherOf, if byA then l.(a := e) else l.(b := e))
  {
    hide ReadBytes;
    hide LeadExists;
    NothingPrinted(w.env.crc);
    assert l.toA + {} == l.toA && l.toB + {} == l.toB;
  }

  lemma TakesOneMore(w: Setting, data: seq<byte>, n: u8)
    requires Sendable(data) && n < FragTotal(data)
    ensures LinkStep(PartlyArrived(w, data, n), false, Take(w.FragmentBytes(data, n), 0, First(data, n)), [],
                     w.env, w.cipherOf, PartlyArrived(w, data, n + 1))
  {
    hide ReadBytes;
    hide LeadExists;
    hide LinkStep;
    hide G.Received;
    hide FragmentAt;
    hide AllPackets;
    hide PushPending;
    hide PushOutput;
    hide Printed;
    hide Wire;
    var cipher := CipherFor(w.Server().secret, w.cipherOf);
    var l := PartlyArrived(w, data, n);
    FragmentOnItsWay(w, data, n);
    ServerTakes(w, data, n, l.b, cipher);
    G.ReceivedNext(data, n, First(data, n), cipher);
    var events, none: seq<Message> := w.Server().events, [];
    assert events + DataEvents([]) == events && none + none == none;
    TakeStep(w, l, false, w.FragmentBytes(data, n), First(data, n), PartlyArrived(w, data, n + 1).b);
  }

  lemma NothingPrinted(crc: Crc)
    ensures Printed([], crc) == {}
  {}

  lemma TakesLast(w: Setting, data: seq<byte>)
    requires Sendable(data)
    ensures var n := FragTotal(data);
      LinkStep(PartlyArrived(w, data, n), false, Take(w.FragmentBytes(data, n), 0, First(data, n)), [],
               w.env, w.cipherOf, Delivered(w, data))
  {
    hide ReadBytes;
    hide LeadExists;
    hide LinkStep;
    hide G.Received;
    hide FragmentAt;
    hide AllPackets;
    hide PushPending;
    hide PushOutput;
    hide CompleteSet;
    hide Printed;
    hide Wire;
    var n, cipher := FragTotal(data), CipherFor(w.Server().secret, w.cipherOf);
    var l := PartlyArrived(w, data, n);
    FragmentOnItsWay(w, data, n);
    ServerTakes(w, data, n, l.b, cipher);
    LastFills(data, cipher);
    EventAdded(w, data);
    TakeStep(w, l, false, w.FragmentBytes(data, n), First(data, n), Delivered(w, data).b);
  }

  lemma EventAdded(w: Setting, data: seq<byte>)
    ensures var out: Message := (0, data);
      w.Server().events + DataEvents([out]) == [ConnectedEvent, DataEvent(data)] && [] + [out] == [out]
  {
    assert w.Server().events == [ConnectedEvent];
    var out: Message := (0, data);
    assert DataEvents([out]) == [DataEvent(data)];
  }

  lemma LastFills(data: seq<byte>, cipher: Option<Cipher>)
    requires Sendable(data)
    ensures var (n, f) := (FragTotal(data), First(data, FragTotal(data)));
      && PushPending(G.Received(data, n), f, 0, cipher, f) == map[0 := CompleteSet(data)]
      && PushOutput(G.Received(data, n), f, 0, cipher, f) == [(0, data)]
  {
    hide Absorb;
    hide FragmentAt;
    hide G.FirstFragments;
    hide D.GenuineMap;
    hide D.Genuine;
    hide Sendable;
    var n, f := FragTotal(data), First(data, FragTotal(data));
    var m := G.FirstFragments(data, n);
    G.FirstFragmentsHold(data, n);
    AllGenuine(data, n);
    IdAndTotal(data, n);
    assert n !in m.Keys;
    FilledUp(data, m, f, cipher);
    NothingReceived(data);
  }

  lemma NothingReceived(data: seq<byte>)
    requires Sendable(data)
    ensures G.FirstFragments(data, 0) == map[] && G.Received(data, 0) == map[]
  {}

  lemma AllGenuine(data: seq<byte>, n: nat)
    requires Sendable(data) && n <= FragTotal(data)
    ensures D.GenuineMap(G.FirstFragments(data, n), 0, data) && D.Genuine(First(data, FragTotal(data)), 0, data)
  {
    G.FirstFragmentsHold(data, n);
    D.SentFragmentsGenuine(data, 0, G.OPTIONS);
    var all := FragmentsOf(data, 0, SendFlags(G.OPTIONS));
    forall id: u8 | id <= FragTotal(data) ensures D.Genuine(First(data, id), 0, data) {
      assert all[id] in all;
    }
  }

  /** The last missing fragment completes a set. */
  lemma FilledUp(data: seq<byte>, m: map<u8, Fragment>, f: Fragment, cipher: Option<Cipher>)
    requires Sendable(data) && D.Genuine(f, 0, data) && f.flags == SendFlags(G.OPTIONS)
    requires D.GenuineMap(m, 0, data) && |m| == FragTotal(data) && f.fragId !in m
    ensures var prev := if m == map[] then None else Some(AssemblySet(Incomplete(m), f.flags, None, 0, 0));
      Absorb(prev, f, 0, cipher, f) == Absorbed(Some(CompleteSet(data)), Some(data))
  {
    hide Absorb;
    hide D.GenuineMap;
    hide D.Genuine;
    hide SendFlags;
    var prev: Option<AssemblySet> := if m == map[] then None else Some(AssemblySet(Incomplete(m), f.flags, None, 0, 0));
    var all := Gathered(prev, f);
    assert all == m[f.fragId := f] && f.fragId in all && all[f.fragId] == f && |all| == FragTotal(data) + 1;
    D.AbsorbGenuine(prev, f, 0, cipher, f, 0, data);
    D.FilledState(prev, f, 0, FragTotal(data));
  }

  lemma Acknowledges(w: Setting, data: seq<byte>)
    requires Sendable(data) && w.env.timeoutDelay > 0
    ensures LinkStep(Delivered(w, data), false, Step.Tick(0, [(0, CreateComplete(FragTotal(data)))], false, []),
                     [w.FromB(AckOf(data))], w.env, w.cipherOf, Acknowledged(w, data, Unanswered(data)))
  {
    hide CreateComplete;
    hide AcksOf;
    hide TickPending;
    hide RepairsOf;
    hide TickSets;
    hide Ticked;
    hide AckPackets;
    hide FragmentPackets;
    hide Wire;
    hide Printed;
    var l, ack := Delivered(w, data), CreateComplete(FragTotal(data));
    AcknowledgesIt(data);
    ServerTicks(w, data);
    OnePacket(w.FromB(AckOf(data)), w.env.crc);
    QuietSender(w);
    assert {w.SynAckBytes()} + {w.AckBytes(data)} == {w.SynAckBytes(), w.AckBytes(data)};
  }

  lemma AcknowledgesIt(data: seq<byte>)
    requires Sendable(data)
    ensures var (acks, pending) := ([(0, CreateComplete(FragTotal(data)))], map[0 := CompleteSet(data)]);
      && AcksOf(acks, pending, 0, pending.Keys) && TickPending(pending, 0) == map[0 := CompleteSet(data).AckSent(0)]
  {
    hide CreateComplete;
    DueNow(data);
    var acks: seq<(u32, Bitmap)> := [(0, CreateComplete(FragTotal(data)))];
    assert acks[0].0 == 0;
  }

  lemma ServerTicks(w: Setting, data: seq<byte>)
    requires Sendable(data) && w.env.timeoutDelay > 0
    ensures var c := Receiver(w, data, CompleteSet(data)).conn;
      && Ticked(c, 0, w.env) == Outcome(c, [])
      && AckPackets(c, [(0, CreateComplete(FragTotal(data)))]) == [w.FromB(AckOf(data))]
  {
    hide CreateComplete;
    var acks: seq<(u32, Bitmap)> := [(0, CreateComplete(FragTotal(data)))];
    AllAcksSent(Receiver(w, data, CompleteSet(data)).conn, acks);
  }

  /** An end that tracks nothing has nothing to repair. */
  lemma QuietSender(w: Setting)
    ensures RepairsOf([], map[], 0) && TickSets(map[], 0) == map[]
    ensures FragmentPackets(w.Server(), []) == [] && forall c: Conn :: FragmentPackets(c, []) == []
  {}

  lemma DueNow(data: seq<byte>)
    requires Sendable(data)
    ensures CompleteSet(data).Due(0) && CompleteSet(data).MayAcknowledge(CreateComplete(FragTotal(data)))
  {
    assert IsKey(SendFlags(G.OPTIONS));
  }

  lemma TakesAnswer(w: Setting, data: seq<byte>)
    requires Sendable(data)
    ensures LinkStep(Acknowledged(w, data, Unanswered(data)), true, Take(w.AckBytes(data), 0, NO_FRAGMENT), [],
                     w.env, w.cipherOf, Acknowledged(w, data, Answered(data)))
  {
    hide CreateComplete;
    hide NewSentSet;
    hide ReadBytes;
    hide LeadExists;
    hide Wire;
    var l, p := Acknowledged(w, data, Unanswered(data)), w.FromB(AckOf(data));
    ClientTakesAck(w, p);
    TakesOther(l.a, p, w.Client(), w, NO_FRAGMENT);
    assert SetsAfter(l.a.conn, l.a.sets, p, 0) == Answered(data);
    NothingPrinted(w.env.crc);
    assert l.toB + {} == l.toB;
  }

  lemma ClientTakesAck(w: Setting, p: Packet)
    requires p.variant.Ack? && p == w.FromB(p.variant)
    ensures w.Client().Admits(p) && Apply(w.Client(), Receive(p, 0), w.env) == Outcome(w.Client(), [])
  {}

  lemma Concludes(w: Setting, data: seq<byte>)
    requires Sendable(data) && w.env.timeoutDelay > 0
    ensures LinkStep(Acknowledged(w, data, Answered(data)), true, Step.Tick(0, [], false, []), [],
                     w.env, w.cipherOf, Acknowledged(w, data, Known(data)))
  {
    hide Answered;
    hide Known;
    hide AcksOf;
    hide RepairsOf;
    hide TickSets;
    hide Ticked;
    hide Wire;
    hide Printed;
    var l := Acknowledged(w, data, Answered(data));
    AllKnown(data);
    ClientTicks(w);
    NothingToAcknowledge();
    NothingPrinted(w.env.crc);
    assert l.toB + {} == l.toB;
  }

  lemma AllKnown(data: seq<byte>)
    requires Sendable(data)
    ensures ValidSets(Answered(data)) && RepairsOf([], Answered(data), 0) && TickSets(Answered(data), 0) == Known(data)
    ensures ReportOf(Known(data), 0) == Some(true)
  {
    CompleteMissesNothing(FragTotal(data));
    hide MissingIds;
    hide CreateComplete;
    hide FragmentsOf;
    var x := Answered(data)[0];
    assert x.AllAcked() && x.Resends(0) && !x.Dropped(0);
    assert Resent(x, 0) == [];
  }

  lemma ClientTicks(w: Setting)
    requires w.env.timeoutDelay > 0
    ensures Ticked(w.Client(), 0, w.env) == Outcome(w.Client(), [])
    ensures AckPackets(w.Client(), []) == [] && FragmentPackets(w.Client(), []) == []
  {}

  lemma NothingToAcknowledge()
    ensures var pending: Pending := map[]; AcksOf([], pending, 0, pending.Keys) && TickPending(pending, 0) == pending
  {}

  // ----- The run -----

  lemma Extend(r: Run, byA: bool, step: Step, sent: seq<Packet>, l: Link) returns (r': Run)
    requires r.Valid() && LinkStep(r.states[|r.moves|], byA, step, sent, r.env, r.cipherOf, l)
    ensures r'.Valid() && r'.env == r.env && r'.cipherOf == r.cipherOf
    ensures r'.moves == r.moves + [Move(byA, step, sent)] && r'.states == r.states + [l]
  {
    hide LinkStep;
    hide Start;
    r' := r.(states := r.states + [l], moves := r.moves + [Move(byA, step, sent)]);
    forall k | 0 <= k < |r'.moves| ensures r'.StepsTo(k) {
      if k < |r.moves| { assert r.StepsTo(k); }
    }
  }

  /** The client sends the message and the first `n` fragments arrive. */
  lemma {:induction false} ArrivingRun(w: Setting, data: seq<byte>, n: nat) returns (r: Run)
    requires Sendable(data) && n <= FragTotal(data)
    ensures r.Valid() && r.env == w.env && r.cipherOf == w.cipherOf
    ensures |r.moves| >= 2 && r.moves[1] == Move(true, Send(data, G.OPTIONS, 0), AllPackets(w, data))
    ensures r.states[|r.moves|] == PartlyArrived(w, data, n)
  {
    hide LinkStep;
    hide Start;
    hide PartlyArrived;
    if n == 0 {
      var start := Start(w.env, w.privA, w.privB, 0, 0);
      r := Run([start], [], w.env, w.cipherOf);
      assert r.states[0] == Start(w.env, w.privA, w.privB, 0, 0);
      TakesSynAck(w);
      r := Extend(r, true, Take(w.SynAckBytes(), 0, NO_FRAGMENT), [], Connected(w));
      SendsMessage(w, data);
      r := Extend(r, true, Send(data, G.OPTIONS, 0), AllPackets(w, data), PartlyArrived(w, data, 0));
    } else {
      r := ArrivingRun(w, data, n - 1);
      TakesOneMore(w, data, n - 1);
      r := Extend(r, false, Take(w.FragmentBytes(data, n - 1), 0, First(data, n - 1)), [], PartlyArrived(w, data, n));
    }
  }

  /**
   * For every message, in the gap or not, there is a run from the start in which it is sent as a key
   * message, delivered, acknowledged and reported received; only a timeout delay of zero rules it out.
   */
  lemma ReportedInSomeRun(w: Setting, data: seq<byte>) returns (r: Run)
    requires Sendable(data) && w.env.timeoutDelay > 0
    ensures r.Valid() && r.env == w.env && r.cipherOf == w.cipherOf
    ensures |r.moves| >= 2 && r.moves[1] == Move(true, Send(data, G.OPTIONS, 0), AllPackets(w, data)) && G.OPTIONS.key
    ensures var last := r.states[|r.moves|];
      && ReportOf(last.a.sets, 0) == Some(true)
      && last.b.conn.events == [ConnectedEvent, DataEvent(data)] && last.b.outputs == [(0, data)]
  {
    hide LinkStep;
    hide Start;
    hide PartlyArrived;
    hide Delivered;
    hide Acknowledged;
    var n := FragTotal(data);
    r := ArrivingRun(w, data, n);
    TakesLast(w, data);
    r := Extend(r, false, Take(w.FragmentBytes(data, n), 0, First(data, n)), [], Delivered(w, data));
    Acknowledges(w, data);
    r := Extend(r, false, Step.Tick(0, [(0, CreateComplete(n))], false, []), [w.FromB(AckOf(data))],
                Acknowledged(w, data, Unanswered(data)));
    TakesAnswer(w, data);
    r := Extend(r, true, Take(w.AckBytes(data), 0, NO_FRAGMENT), [], Acknowledged(w, data, Answered(data)));
    Concludes(w, data);
    r := Extend(r, true, Step.Tick(0, [], false, []), [], Acknowledged(w, data, Known(data)));
    EndsWell(w, data);
  }

  lemma EndsWell(w: Setting, data: seq<byte>)
    requires Sendable(data)
    ensures var last := Acknowledged(w, data, Known(data));
      && ReportOf(last.a.sets, 0) == Some(true)
      && last.b.conn.events == [ConnectedEvent, DataEvent(data)] && last.b.outputs == [(0, data)]
  {
    AllKnown(data);
  }
}
