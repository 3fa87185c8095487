/**
 * What packets, time and the user do to one end of a connection (net/inner.rs, net/socket.rs). Key
 * generation and key agreement are parameters.
 */
module Connection {
  import opened Prelude
  import opened Packet

  const SYN_RESEND_DELAY: nat := 3 * SECOND

  type PrivKey = nat
  type SharedKey = nat

  datatype Curve = Curve(public: PrivKey -> PubKey, agree: (PrivKey, PubKey) -> SharedKey)
  {
    /** The one law of key agreement that the protocol rests on. */
    ghost predicate Commutes() {
      forall a: PrivKey, b: PrivKey :: agree(a, public(b)) == agree(b, public(a))
    }
  }

  /** Everything a socket takes from its surroundings. */
  datatype Env = Env(curve: Curve, crc: Crc, timeoutDelay: nat, heartbeatDelay: nat, transferRaw: bool)

  datatype Secret = Ours(priv: PrivKey) | Shared(key: SharedKey)
  {
    /** The private key is used up by the first agreement; a later one changes nothing. */
    function Agree(curve: Curve, other: PubKey): Secret {
      match this
      case Ours(priv) => Shared(curve.agree(priv, other))
      case Shared(_) => this
    }
  }

  datatype Event =
    | DataEvent(bytes: seq<byte>)
    | ConnectedEvent
    | AbortedEvent
    | EndedEvent
    | TimeoutEvent
    | RawEvent(bytes: seq<byte>)

  datatype Status =
    | SynSent(at: nat)
    | SynReceived
    | TimeoutError(since: nat, duration: nat)
    | Connected
    | TerminateSent(since: nat)
    | TerminateReceived(since: nat)
  {
    predicate IsFinished() { TimeoutError? || TerminateSent? || TerminateReceived? }

    /** Nothing is sent any more. */
    predicate IsDisconnected() { TimeoutError? || TerminateReceived? }

    predicate IsFinishedAndOld(now: nat) {
      IsFinished() && (if now >= since then now - since else 0) / SECOND >= 2
    }

    function Events(): seq<Event> {
      match this
      case TimeoutError(_, _) => [TimeoutEvent]
      case TerminateSent(_) => [EndedEvent]
      case Connected => [ConnectedEvent]
      case _ => []
    }
  }

  /** The connection part of a socket; `events` is everything it queued for its user. */
  datatype Conn = Conn(
    status: Status,
    selfKey: PubKey,
    secret: Secret,
    otherKey: PubKey,
    lastReceived: nat,
    events: seq<Event>)
  {
    function WithStatus(s: Status): Conn {
      this.(status := s, events := events + s.Events())
    }

    /** What reaches the network of a packet that the socket sends. */
    function Sends(v: Variant): seq<Packet> {
      if status.IsDisconnected() then [] else [Packet(selfKey[..4], otherKey[..4], v)]
    }

    /** A Syn may come from anyone, a SynAck from anyone who knows our key, the rest from the peer only. */
    predicate Admits(p: Packet) {
      || p.variant.Syn?
      || (p.dst == selfKey[..4] && (p.variant.SynAck? || p.src == otherKey[..4]))
    }
  }

  const NO_KEY: PubKey := seq(32, _ => 0)

  function NewConnecting(curve: Curve, priv: PrivKey, now: nat): Conn {
    Conn(SynSent(now), curve.public(priv), Ours(priv), NO_KEY, now, [])
  }

  /** A server-side socket, once it has answered the Syn. */
  function NewConnected(curve: Curve, priv: PrivKey, other: PubKey, now: nat): Conn {
    Conn(SynReceived, curve.public(priv), Ours(priv).Agree(curve, other), other, now, []).WithStatus(Connected)
  }

  datatype Op = Receive(packet: Packet, now: nat) | Tick(now: nat) | Terminate(abort: bool, lastSeqId: u32, now: nat)

  datatype Outcome = Outcome(conn: Conn, sent: seq<Packet>)

  function Apply(c: Conn, op: Op, env: Env): Outcome {
    match op
    case Receive(p, now) => Received(c.(lastReceived := now), p, now, env)
    case Tick(now) => Ticked(c, now, env)
    case Terminate(abort, lastSeqId, now) =>
      Outcome(c.WithStatus(TerminateSent(now)), c.Sends(if abort then Abort(lastSeqId) else End(lastSeqId)))
  }

  function Received(c: Conn, p: Packet, now: nat, env: Env): Outcome {
    if !c.Admits(p) then
      Outcome(if env.transferRaw then c.(events := c.events + [RawEvent(Wire(p, env.crc))]) else c, [])
    else
      match p.variant
      case Syn(_) => Outcome(c, c.Sends(SynAck(c.selfKey)))
      case SynAck(key) =>
        if c.status.SynSent?
        then Outcome(c.(otherKey := key, secret := c.secret.Agree(env.curve, key)).WithStatus(Connected), [])
        else Outcome(c, [])
      case End(_) => Outcome(Ended(c.WithStatus(TerminateReceived(now)), EndedEvent), [])
      case Abort(_) => Outcome(Ended(c.WithStatus(TerminateReceived(now)), AbortedEvent), [])
      case _ => Outcome(c, [])
  }

  function Ended(c: Conn, event: Event): Conn {
    c.(events := c.events + [event])
  }

  function TimedOut(c: Conn, now: nat, env: Env): Conn {
    var ago := if now >= c.lastReceived then now - c.lastReceived else 0;
    if ago >= env.timeoutDelay && !c.status.IsFinished() then c.WithStatus(TimeoutError(now, ago)) else c
  }

  function ResentSyn(c: Conn, now: nat): Outcome {
    if c.status.SynSent? && now > c.status.at + SYN_RESEND_DELAY
    then Outcome(c.WithStatus(SynSent(now)), c.Sends(Syn(c.selfKey)))
    else Outcome(c, [])
  }

  /** The timeout and the repeated Syn; heartbeats, acknowledgements and repairs change nothing here. */
  function Ticked(c: Conn, now: nat, env: Env): Outcome {
    ResentSyn(TimedOut(c, now, env), now)
  }

  // ----- One end, whatever arrives -----

  /** One socket after any operations at all, with any packets. */
  function Life(c: Conn, ops: seq<Op>, env: Env): Conn {
    if ops == [] then c else Apply(Life(c, ops[..|ops| - 1], env), ops[|ops| - 1], env).conn
  }

  /** Agreed keys stay, and a finished connection stays finished. */
  lemma {:induction false} LifeKeeps(c: Conn, ops: seq<Op>, env: Env)
    ensures var c' := Life(c, ops, env);
      && c'.selfKey == c.selfKey
      && (c.secret.Shared? ==> c'.secret == c.secret)
      && (!c.status.SynSent? ==> c'.otherKey == c.otherKey && !c'.status.SynSent?)
      && (c.status.IsFinished() ==> c'.status.IsFinished())
  {
    if ops != [] { LifeKeeps(c, ops[..|ops| - 1], env); }
  }

  function Connections(events: seq<Event>): nat {
    if events == [] then 0
    else Connections(events[..|events| - 1]) + (if events[|events| - 1].ConnectedEvent? then 1 else 0)
  }

  lemma ConnectionsNext(events: seq<Event>, e: Event)
    ensures Connections(events + [e]) == Connections(events) + (if e.ConnectedEvent? then 1 else 0)
  {
    assert (events + [e])[..|events|] == events;
  }

  /** Counts connections along the life of a socket: none while connecting, exactly one while connected. */
  ghost predicate CountInv(c: Conn) {
    && (c.status.SynSent? ==> Connections(c.events) == 0)
    && (c.status.Connected? ==> Connections(c.events) == 1)
    && Connections(c.events) <= 1
    && !c.status.SynReceived?
  }

  lemma StatusKeepsCount(c: Conn, s: Status)
    requires Connections(c.events) <= 1 && !s.SynReceived?
    requires s.SynSent? || s.Connected? ==> Connections(c.events) == 0
    ensures CountInv(c.WithStatus(s))
  {
    if s.Events() == [] {
      assert c.events + [] == c.events;
    } else {
      ConnectionsNext(c.events, s.Events()[0]);
    }
  }

  lemma EventKeepsCount(c: Conn, e: Event)
    requires CountInv(c) && !e.ConnectedEvent?
    ensures CountInv(c.(events := c.events + [e]))
  {
    ConnectionsNext(c.events, e);
  }

  lemma ReceivedKeepsCount(c: Conn, p: Packet, now: nat, env: Env)
    requires CountInv(c)
    ensures CountInv(Received(c, p, now, env).conn)
  {
    if !c.Admits(p) {
      EventKeepsCount(c, RawEvent(Wire(p, env.crc)));
    } else {
      match p.variant
      case SynAck(key) =>
        if c.status.SynSent? {
          StatusKeepsCount(c.(otherKey := key, secret := c.secret.Agree(env.curve, key)), Connected);
        }
      case End(_) =>
        StatusKeepsCount(c, TerminateReceived(now));
        EventKeepsCount(c.WithStatus(TerminateReceived(now)), EndedEvent);
      case Abort(_) =>
        StatusKeepsCount(c, TerminateReceived(now));
        EventKeepsCount(c.WithStatus(TerminateReceived(now)), AbortedEvent);
      case _ =>
    }
  }

  lemma TickedKeepsCount(c: Conn, now: nat, env: Env)
    requires CountInv(c)
    ensures CountInv(Ticked(c, now, env).conn)
  {
    StatusKeepsCount(c, TimeoutError(now, if now >= c.lastReceived then now - c.lastReceived else 0));
    if c.status.SynSent? { StatusKeepsCount(c, SynSent(now)); }
  }

  /** A socket connects at most once in its life, and its user hears of it exactly then. */
  lemma {:induction false} ConnectsOnce(c: Conn, ops: seq<Op>, env: Env)
    requires CountInv(c)
    ensures CountInv(Life(c, ops, env))
  {
    if ops != [] {
      var d := Life(c, ops[..|ops| - 1], env);
      ConnectsOnce(c, ops[..|ops| - 1], env);
      match ops[|ops| - 1]
      case Receive(p, now) => ReceivedKeepsCount(d.(lastReceived := now), p, now, env);
      case Tick(now) => TickedKeepsCount(d, now, env);
      case Terminate(_, _, now) => StatusKeepsCount(d, TerminateSent(now));
    }
  }

  lemma NewSocketsCount(curve: Curve, priv: PrivKey, other: PubKey, now: nat)
    ensures CountInv(NewConnecting(curve, priv, now)) && CountInv(NewConnected(curve, priv, other, now))
  {
    ConnectionsNext([], ConnectedEvent);
  }

  /** A silenced socket speaks again exactly when its user terminates it once more. */
  lemma SilenceBrokenByTerminateOnly(c: Conn, op: Op, env: Env)
    requires c.status.IsDisconnected()
    ensures Apply(c, op, env).sent == []
    ensures Apply(c, op, env).conn.status.IsDisconnected() <==> !op.Terminate?
  {}
}
