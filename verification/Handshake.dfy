/**
 * Any number of honest clients, each at its own address, and one listener, over a network that may lose,
 * repeat and reorder packets: both ends of a connection agree on the secret.
 */
module Handshake {
  import opened Packet
  import opened Connection
  import opened Listener

  const SERVER: Address := 0

  datatype Client = Client(priv: PrivKey, conn: Conn)

  datatype Datagram = Datagram(from: Address, to: Address, packet: Packet)

  /** The making of a server-side socket. */
  datatype Birth = Birth(addr: Address, clientKey: PubKey, priv: PrivKey, now: nat)
  {
    function Socket(env: Env): Remote { NewRemote(addr, clientKey, priv, now, env) }
  }

  /** `network` holds every packet ever sent and `births` every server-side socket ever made. */
  datatype World = World(clients: map<Address, Client>, remotes: Remotes, births: set<Birth>, network: set<Datagram>)

  datatype Step =
    | Connect(addr: Address, priv: PrivKey, now: nat)
    | ClientReceive(d: Datagram, now: nat)
    | ClientAct(addr: Address, op: Op)
    | ClientSay(addr: Address, v: Variant)
    | ServerReceive(d: Datagram, priv: PrivKey, now: nat)
    | ServerAct(id: Identity, op: Op)
    | ServerSay(id: Identity, v: Variant)
    | ServerClear
    | ServerClock(now: nat)

  const INITIAL := World(map[], map[], {}, {})

  function Posted(from: Address, to: Address, packets: seq<Packet>): set<Datagram> {
    set p | p in packets :: Datagram(from, to, p)
  }

  /** Packets that carry data, acknowledge it or keep the connection alive. */
  predicate Payload(v: Variant) { v.FragmentPacket? || v.Ack? || v.Heartbeat? }

  function WithClient(w: World, a: Address, o: Outcome): World
    requires a in w.clients
  {
    w.(clients := w.clients[a := w.clients[a].(conn := o.conn)], network := w.network + Posted(a, SERVER, o.sent))
  }

  function WithRemote(w: World, id: Identity, o: Outcome): World
    requires id in w.remotes
  {
    w.(remotes := w.remotes[id := w.remotes[id].(conn := o.conn)], network := w.network
      + Posted(SERVER, w.remotes[id].addr, o.sent))
  }

  /** The births a packet to the listener causes. */
  function BirthsOf(remotes: Remotes, d: Datagram, priv: PrivKey, now: nat): set<Birth> {
    if d.packet.src !in remotes && d.packet.variant.Syn? then {Birth(d.from, d.packet.variant.key, priv, now)} else {}
  }

  ghost predicate Next(w: World, step: Step, w': World, env: Env) {
    match step
    case Connect(a, priv, now) =>
      && a != SERVER && a !in w.clients
      && var c := NewConnecting(env.curve, priv, now);
         w' == w.(clients := w.clients[a := Client(priv, c)], network := w.network
           + Posted(a, SERVER, c.Sends(Syn(c.selfKey))))
    case ClientReceive(d, now) =>
      && d in w.network && d.to in w.clients && d.from == SERVER
      && w' == WithClient(w, d.to, Apply(w.clients[d.to].conn, Receive(d.packet, now), env))
    case ClientAct(a, op) =>
      && a in w.clients && !op.Receive?
      && w' == WithClient(w, a, Apply(w.clients[a].conn, op, env))
    case ClientSay(a, v) =>
      && a in w.clients && Payload(v)
      && w' == WithClient(w, a, Outcome(w.clients[a].conn, w.clients[a].conn.Sends(v)))
    case ServerReceive(d, priv, now) =>
      && d in w.network && d.to == SERVER
      && var routed := Incoming(w.remotes, d.packet, d.from, priv, now, env);
         w' == w.(remotes := routed.remotes, births := w.births + BirthsOf(w.remotes, d, priv, now),
                  network := w.network + Posted(SERVER, d.from, routed.sent))
    case ServerAct(id, op) =>
      && id in w.remotes && !op.Receive?
      && w' == WithRemote(w, id, Apply(w.remotes[id].conn, op, env))
    case ServerSay(id, v) =>
      && id in w.remotes && Payload(v)
      && w' == WithRemote(w, id, Outcome(w.remotes[id].conn, w.remotes[id].conn.Sends(v)))
    case ServerClear => w' == w.(remotes := Cleared(w.remotes))
    case ServerClock(now) => w' == w.(remotes := Clocked(w.remotes, now))
  }

  datatype Run = Run(states: seq<World>, steps: seq<Step>, env: Env)
  {
    ghost predicate Valid() {
      && |states| == |steps| + 1
      && states[0] == INITIAL
      && forall k :: 0 <= k < |steps| ==> StepsTo(k)
    }

    ghost predicate StepsTo(k: nat)
      requires k < |steps| < |states|
    {
      Next(states[k], steps[k], states[k + 1], env)
    }
  }

  // ----- The invariant -----

  /** The client at `a` holds the keys of the socket born as `b`, and that socket was made from its Syn. */
  predicate Paired(c: Conn, a: Address, b: Birth, curve: Curve) {
    b.addr == a && b.clientKey == c.selfKey && c.otherKey == curve.public(b.priv)
  }

  ghost predicate ClientInv(c: Client, a: Address, births: set<Birth>, curve: Curve) {
    && c.conn.selfKey == curve.public(c.priv)
    && (c.conn.secret.Ours? ==> c.conn.secret == Ours(c.priv))
    && (c.conn.status.SynSent? ==> c.conn.secret.Ours?)
    && (c.conn.status.Connected? ==> c.conn.secret.Shared?)
    && (c.conn.secret.Shared? ==>
          c.conn.secret == Shared(curve.agree(c.priv, c.conn.otherKey)) && exists b ::
            b in births && Paired(c.conn, a, b, curve))
    && CountInv(c.conn)
  }

  /** A live server-side socket still has the keys it was born with. */
  predicate Grown(r: Remote, b: Birth, curve: Curve) {
    && r.addr == b.addr && r.conn.selfKey == curve.public(b.priv) && r.conn.otherKey == b.clientKey
    && r.conn.secret == Shared(curve.agree(b.priv, b.clientKey))
  }

  ghost predicate RemoteInv(r: Remote, births: set<Birth>, curve: Curve) {
    && !r.conn.status.SynSent? && CountInv(r.conn)
    && exists b :: b in births && Grown(r, b, curve)
  }

  predicate BirthInv(b: Birth, clients: map<Address, Client>) {
    b.addr in clients && b.clientKey == clients[b.addr].conn.selfKey
  }

  /** A Syn carries its client's key; a SynAck the key of a socket born from a Syn of its addressee. */
  ghost predicate DatagramInv(d: Datagram, clients: map<Address, Client>, births: set<Birth>, curve: Curve) {
    if d.from == SERVER then
      && !d.packet.variant.Syn?
      && (d.packet.variant.SynAck? ==> exists b ::
         b in births && b.addr == d.to && d.packet.variant.key == curve.public(b.priv))
    else
      d.from in clients && (d.packet.variant.Syn? ==> d.packet.variant.key == clients[d.from].conn.selfKey)
  }

  ghost predicate Inv(w: World, curve: Curve) {
    && (forall a :: a in w.clients ==> a != SERVER && ClientInv(w.clients[a], a, w.births, curve))
    && (forall id :: id in w.remotes ==> RemoteInv(w.remotes[id], w.births, curve))
    && (forall b :: b in w.births ==> BirthInv(b, w.clients))
    && (forall d :: d in w.network ==> DatagramInv(d, w.clients, w.births, curve))
  }

  /** Keys and births only accumulate. */
  ghost predicate Grows(w: World, w': World) {
    && w.births <= w'.births
    && (forall a :: a in w.clients ==> a in w'.clients && w'.clients[a].conn.selfKey == w.clients[a].conn.selfKey)
  }

  lemma GrowsKeeps(w: World, w': World, curve: Curve)
    requires Inv(w, curve) && Grows(w, w')
    ensures forall a :: a in w.clients ==> ClientInv(w.clients[a], a, w'.births, curve)
    ensures forall id :: id in w.remotes ==> RemoteInv(w.remotes[id], w'.births, curve)
    ensures forall b :: b in w.births ==> BirthInv(b, w'.clients)
    ensures forall d :: d in w.network ==> DatagramInv(d, w'.clients, w'.births, curve)
  {}

  /** What a client sends by one operation: its own key in a Syn, and no one else's. */
  lemma ClientSends(c: Conn, op: Op, env: Env)
    ensures forall p :: p in Apply(c, op, env).sent && p.variant.Syn? ==> p.variant.key == c.selfKey
    ensures Apply(c, op, env).conn.selfKey == c.selfKey
  {}

  /** One operation of a client, on a packet from the listener if on any. */
  lemma ClientKeeps(c: Client, a: Address, op: Op, births: set<Birth>, clients: map<Address, Client>, env: Env)
    requires ClientInv(c, a, births, env.curve) && a in clients && clients[a].conn.selfKey == c.conn.selfKey
    requires forall b :: b in births ==> BirthInv(b, clients)
    requires op.Receive? && op.packet.variant.SynAck? ==>
      exists b :: b in births && b.addr == a && op.packet.variant.key == env.curve.public(b.priv)
    ensures ClientInv(c.(conn := Apply(c.conn, op, env).conn), a, births, env.curve)
  {
    OpKeepsCount(c.conn, op, env);
    var c' := Apply(c.conn, op, env).conn;
    if c'.secret.Shared? {
      if c.conn.secret.Shared? {
        var b :| b in births && Paired(c.conn, a, b, env.curve);
        assert Paired(c', a, b, env.curve);
      } else {
        var b :| b in births && b.addr == a && op.packet.variant.key == env.curve.public(b.priv);
        assert BirthInv(b, clients) && Paired(c', a, b, env.curve);
      }
    }
  }

  lemma OpKeepsCount(c: Conn, op: Op, env: Env)
    requires CountInv(c)
    ensures CountInv(Apply(c, op, env).conn)
  {
    ConnectsOnce(c, [op], env);
    assert [op][..0] == [] && Life(c, [], env) == c;
  }

  /** One operation of a server-side socket leaves its keys alone; it sends no Syn, and only its own key. */
  lemma RemoteKeeps(r: Remote, op: Op, births: set<Birth>, env: Env)
    requires RemoteInv(r, births, env.curve)
    ensures RemoteInv(r.(conn := Apply(r.conn, op, env).conn), births, env.curve)
    ensures forall p :: p in Apply(r.conn, op, env).sent ==>
      !p.variant.Syn? && (p.variant.SynAck? ==> p.variant.key == r.conn.selfKey)
  {
    OpKeepsCount(r.conn, op, env);
    var b :| b in births && Grown(r, b, env.curve);
    assert Grown(r.(conn := Apply(r.conn, op, env).conn), b, env.curve);
  }

  lemma PostedByRemote(r: Remote, packets: seq<Packet>, births: set<Birth>, clients: map<Address, Client>, curve: Curve)
    requires RemoteInv(r, births, curve)
    requires forall p :: p in packets ==> !p.variant.Syn? && (p.variant.SynAck? ==> p.variant.key == r.conn.selfKey)
    ensures forall d :: d in Posted(SERVER, r.addr, packets) ==> DatagramInv(d, clients, births, curve)
  {
    var b :| b in births && Grown(r, b, curve);
  }

  lemma ClientStepKeepsInv(w: World, a: Address, op: Op, env: Env)
    requires Inv(w, env.curve) && a in w.clients
    requires op.Receive? ==> exists d :: d in w.network && d.from == SERVER && d.to == a && d.packet == op.packet
    ensures Inv(WithClient(w, a, Apply(w.clients[a].conn, op, env)), env.curve)
  {
    hide ClientInv;
    hide RemoteInv;
    hide Apply;
    var o := Apply(w.clients[a].conn, op, env);
    ClientSends(w.clients[a].conn, op, env);
    if op.Receive? {
      var d :| d in w.network && d.from == SERVER && d.to == a && d.packet == op.packet;
      assert DatagramInv(d, w.clients, w.births, env.curve);
    }
    ClientKeeps(w.clients[a], a, op, w.births, w.clients, env);
    OneClientMoves(w, a, o, env.curve);
  }

  lemma OneClientMoves(w: World, a: Address, o: Outcome, curve: Curve)
    requires Inv(w, curve) && a in w.clients && ClientInv(w.clients[a].(conn := o.conn), a, w.births, curve)
    requires o.conn.selfKey == w.clients[a].conn.selfKey
    requires forall p :: p in o.sent && p.variant.Syn? ==> p.variant.key == o.conn.selfKey
    ensures Inv(WithClient(w, a, o), curve)
  {
    hide ClientInv;
    hide RemoteInv;
    GrowsKeeps(w, WithClient(w, a, o), curve);
  }

  lemma RemoteStepKeepsInv(w: World, id: Identity, op: Op, env: Env)
    requires Inv(w, env.curve) && id in w.remotes
    ensures Inv(WithRemote(w, id, Apply(w.remotes[id].conn, op, env)), env.curve)
  {
    RemoteKeeps(w.remotes[id], op, w.births, env);
    PostedByRemote(w.remotes[id], Apply(w.remotes[id].conn, op, env).sent, w.births, w.clients, env.curve);
  }

  lemma SayKeepsInv(w: World, step: Step, w': World, env: Env)
    requires Inv(w, env.curve) && (step.ClientSay? || step.ServerSay?) && Next(w, step, w', env)
    ensures Inv(w', env.curve)
  {
    hide CountInv;
    hide ClientInv;
    match step
    case ClientSay(a, v) => assert w'.clients == w.clients;
    case ServerSay(id, v) =>
      assert w'.remotes == w.remotes;
      PostedByRemote(w.remotes[id], w.remotes[id].conn.Sends(v), w.births, w.clients, env.curve);
  }

  lemma ConnectKeepsInv(w: World, step: Step, w': World, env: Env)
    requires Inv(w, env.curve) && step.Connect? && Next(w, step, w', env)
    ensures Inv(w', env.curve)
  {
    hide CountInv;
    NewSocketsCount(env.curve, step.priv, NO_KEY, step.now);
    GrowsKeeps(w, w', env.curve);
  }

  lemma BornKeepsInv(w: World, d: Datagram, priv: PrivKey, now: nat, w': World, env: Env)
    requires Inv(w, env.curve) && Next(w, ServerReceive(d, priv, now), w', env)
    requires d.packet.src !in w.remotes && d.packet.variant.Syn?
    ensures Inv(w', env.curve)
  {
    hide CountInv;
    hide Payload;
    var b := Birth(d.from, d.packet.variant.key, priv, now);
    assert DatagramInv(d, w.clients, w.births, env.curve) && BirthInv(b, w.clients);
    NewSocketsCount(env.curve, priv, b.clientKey, now);
    assert b in w'.births && Grown(b.Socket(env), b, env.curve);
    GrowsKeeps(w, w', env.curve);
    PostedByRemote(b.Socket(env), b.Socket(env).conn.Sends(SynAck(b.Socket(env).conn.selfKey)), w'.births, w'.clients,
                   env.curve);
  }

  lemma NextKeepsInv(w: World, step: Step, w': World, env: Env)
    requires Inv(w, env.curve) && Next(w, step, w', env)
    ensures Inv(w', env.curve)
  {
    hide CountInv;
    hide Apply;
    match step
    case Connect(_, _, _) => ConnectKeepsInv(w, step, w', env);
    case ClientReceive(d, now) => ClientStepKeepsInv(w, d.to, Receive(d.packet, now), env);
    case ClientAct(a, op) => ClientStepKeepsInv(w, a, op, env);
    case ClientSay(_, _) => SayKeepsInv(w, step, w', env);
    case ServerReceive(d, priv, now) =>
      if d.packet.src !in w.remotes && d.packet.variant.Syn? {
        BornKeepsInv(w, d, priv, now, w', env);
      } else if d.packet.src in w.remotes && d.from == w.remotes[d.packet.src].addr {
        var id, op := d.packet.src, Receive(d.packet, w.remotes[d.packet.src].cachedNow);
        RemoteStepKeepsInv(w, id, op, env);
        assert w' == WithRemote(w, id, Apply(w.remotes[id].conn, op, env));
      } else {
        assert w' == w;
      }
    case ServerAct(id, op) => RemoteStepKeepsInv(w, id, op, env);
    case ServerSay(_, _) => SayKeepsInv(w, step, w', env);
    case ServerClear =>
    case ServerClock(now) => ClockKeepsInv(w, now, env.curve);
  }

  lemma ClockKeepsInv(w: World, now: nat, curve: Curve)
    requires Inv(w, curve)
    ensures Inv(w.(remotes := Clocked(w.remotes, now)), curve)
  {
    forall id | id in w.remotes ensures RemoteInv(Clocked(w.remotes, now)[id], w.births, curve) {
      var b :| b in w.births && Grown(w.remotes[id], b, curve);
      assert Grown(Clocked(w.remotes, now)[id], b, curve);
    }
  }

  lemma {:induction false} RunKeepsInv(r: Run, k: nat)
    requires r.Valid() && k < |r.states|
    ensures Inv(r.states[k], r.env.curve)
  {
    if k > 0 {
      RunKeepsInv(r, k - 1);
      assert r.StepsTo(k - 1);
      NextKeepsInv(r.states[k - 1], r.steps[k - 1], r.states[k], r.env);
    }
  }

  // ----- Main results -----

  /**
   * Agreement: in every run, a connected client holds the public key of a server-side socket that was
   * made from its own Syn, and the secret of the two is the same.
   */
  lemma Agreement(r: Run, k: nat, a: Address)
    requires r.Valid() && r.env.curve.Commutes() && k < |r.states|
    requires a in r.states[k].clients && r.states[k].clients[a].conn.status.Connected?
    ensures var c := r.states[k].clients[a].conn;
      exists b :: b in r.states[k].births && Agrees(c, a, b, r.env)
  {
    RunKeepsInv(r, k);
    var w, c := r.states[k], r.states[k].clients[a];
    assert ClientInv(c, a, w.births, r.env.curve);
    var b :| b in w.births && Paired(c.conn, a, b, r.env.curve);
    assert Agrees(c.conn, a, b, r.env);
  }

  /** The client and the socket born as `b` know each other's keys and share one secret. */
  predicate Agrees(c: Conn, a: Address, b: Birth, env: Env) {
    var s := b.Socket(env).conn;
    b.addr == a && c.otherKey == s.selfKey && s.otherKey == c.selfKey && c.secret == s.secret && c.secret.Shared?
  }

  /** Every birth really happened: a step of the run put the newborn socket in the listener's table. */
  lemma {:induction false} BirthsHappen(r: Run, k: nat, b: Birth) returns (j: nat, id: Identity)
    requires r.Valid() && k < |r.states| && b in r.states[k].births
    ensures j < k && r.steps[j].ServerReceive?
    ensures id !in r.states[j].remotes && id in r.states[j + 1].remotes
    ensures r.states[j + 1].remotes[id] == b.Socket(r.env)
    ensures r.steps[j].d.from == b.addr && r.steps[j].d.packet.variant == Syn(b.clientKey)
  {
    assert k > 0;
    assert r.StepsTo(k - 1);
    if b in r.states[k - 1].births {
      j, id := BirthsHappen(r, k - 1, b);
    } else {
      j, id := k - 1, r.steps[k - 1].d.packet.src;
    }
  }

  /** While the listener still has the socket a client is connected to, the two hold the same secret. */
  lemma LiveAgreement(r: Run, k: nat, a: Address, id: Identity)
    requires r.Valid() && r.env.curve.Commutes() && k < |r.states|
    requires a in r.states[k].clients && r.states[k].clients[a].conn.status.Connected?
    requires id in r.states[k].remotes && r.states[k].remotes[id].addr == a
    requires r.states[k].remotes[id].conn.selfKey == r.states[k].clients[a].conn.otherKey
    ensures r.states[k].remotes[id].conn.otherKey == r.states[k].clients[a].conn.selfKey
    ensures r.states[k].remotes[id].conn.secret == r.states[k].clients[a].conn.secret
  {
    RunKeepsInv(r, k);
    var w := r.states[k];
    assert ClientInv(w.clients[a], a, w.births, r.env.curve) && RemoteInv(w.remotes[id], w.births, r.env.curve);
    var b :| b in w.births && Grown(w.remotes[id], b, r.env.curve);
    assert BirthInv(b, w.clients);
  }

  lemma ClientStep(w: World, step: Step, w': World, env: Env, a: Address)
    requires Next(w, step, w', env) && a in w.clients
    ensures a in w'.clients
    ensures w'.clients[a].conn == w.clients[a].conn || exists op ::
      w'.clients[a].conn == Apply(w.clients[a].conn, op, env).conn
  {
    match step
    case ClientReceive(d, now) =>
      if d.to == a { assert w'.clients[a].conn == Apply(w.clients[a].conn, Receive(d.packet, now), env).conn; }
    case ClientAct(b, op) =>
      if b == a { assert w'.clients[a].conn == Apply(w.clients[a].conn, op, env).conn; }
    case _ =>
  }

  /** What never changes back along a run at one client. */
  predicate Settled(c: Conn, c': Conn) {
    && c'.selfKey == c.selfKey
    && (c.secret.Shared? && !c.status.SynSent? ==> c'.secret == c.secret && c'.otherKey == c.otherKey)
    && (!c.status.SynSent? ==> !c'.status.SynSent?)
    && (c.status.IsFinished() ==> c'.status.IsFinished())
  }

  /** A client's agreed keys stay, it never goes back to connecting, and once finished it stays so. */
  lemma {:induction false} ClientSettles(r: Run, i: nat, j: nat, a: Address)
    requires r.Valid() && i <= j < |r.states| && a in r.states[i].clients
    ensures a in r.states[j].clients && Settled(r.states[i].clients[a].conn, r.states[j].clients[a].conn)
    decreases j
  {
    if i < j {
      ClientSettles(r, i, j - 1, a);
      assert r.StepsTo(j - 1);
      ClientStep(r.states[j - 1], r.steps[j - 1], r.states[j], r.env, a);
      var c, d := r.states[j - 1].clients[a].conn, r.states[j].clients[a].conn;
      if c != d {
        var op :| d == Apply(c, op, r.env).conn;
        OpSettles(c, op, r.env);
      }
    }
  }

  lemma OpSettles(c: Conn, op: Op, env: Env)
    ensures Settled(c, Apply(c, op, env).conn)
  {
    LifeKeeps(c, [op], env);
    assert [op][..0] == [] && Life(c, [], env) == c;
  }

  /** In every run, every socket has connected at most once, and a connected one exactly once. */
  lemma ConnectedOnce(r: Run, k: nat)
    requires r.Valid() && k < |r.states|
    ensures forall a :: a in r.states[k].clients ==> CountInv(r.states[k].clients[a].conn)
    ensures forall id :: id in r.states[k].remotes ==> CountInv(r.states[k].remotes[id].conn)
  {
    RunKeepsInv(r, k);
    var w := r.states[k];
    forall a | a in w.clients ensures CountInv(w.clients[a].conn) {
      assert ClientInv(w.clients[a], a, w.births, r.env.curve);
    }
    forall id | id in w.remotes ensures CountInv(w.remotes[id].conn) {
      assert RemoteInv(w.remotes[id], w.births, r.env.curve);
    }
  }

  // ----- A whole dialogue -----

  function ClientSide(privA: PrivKey, env: Env): Client { Client(privA, NewConnecting(env.curve, privA, 0)) }

  function SynFrom(a: Address, privA: PrivKey, env: Env): Datagram {
    var c := NewConnecting(env.curve, privA, 0);
    Datagram(a, SERVER, Packet(c.selfKey[..4], c.otherKey[..4], Syn(c.selfKey)))
  }

  function SynAckTo(a: Address, privA: PrivKey, privB: PrivKey, env: Env): Datagram {
    var c := NewConnected(env.curve, privB, env.curve.public(privA), 0);
    Datagram(SERVER, a, Packet(c.selfKey[..4], c.otherKey[..4], SynAck(c.selfKey)))
  }

  /** The client once it has taken the answer. */
  function Met(privA: PrivKey, privB: PrivKey, env: Env): Conn {
    Conn(Connected, env.curve.public(privA), Shared(env.curve.agree(privA, env.curve.public(privB))),
         env.curve.public(privB), 0, [ConnectedEvent])
  }

  function EndFrom(a: Address, privA: PrivKey, privB: PrivKey, env: Env): Datagram {
    var c := Met(privA, privB, env);
    Datagram(a, SERVER, Packet(c.selfKey[..4], c.otherKey[..4], End(0)))
  }

  lemma OnePosted(from: Address, to: Address, p: Packet)
    ensures Posted(from, to, [p]) == {Datagram(from, to, p)} && Posted(from, to, []) == {}
  {
    assert p in [p];
  }

  lemma FirstSteps(a: Address, privA: PrivKey, privB: PrivKey, env: Env, w1: World, w2: World)
    requires a != SERVER && w1 == World(map[a := ClientSide(privA, env)], map[], {}, {SynFrom(a, privA, env)})
    requires var key := env.curve.public(privA);
      w2 == w1.(remotes := map[key[..4] := NewRemote(a, key, privB, 0, env)], births := {Birth(a, key, privB, 0)},
                network := {SynFrom(a, privA, env), SynAckTo(a, privA, privB, env)})
    ensures Next(INITIAL, Connect(a, privA, 0), w1, env)
    ensures Next(w1, ServerReceive(SynFrom(a, privA, env), privB, 0), w2, env)
  {
    var d, e := SynFrom(a, privA, env), SynAckTo(a, privA, privB, env);
    OnePosted(a, SERVER, d.packet);
    OnePosted(SERVER, a, e.packet);
    var none: map<Address, Client> := map[];
    assert none[a := ClientSide(privA, env)] == map[a := ClientSide(privA, env)];
    assert {} + {d} == {d} && {d} + {e} == {d, e};
  }

  lemma Answered(a: Address, privA: PrivKey, privB: PrivKey, env: Env)
    ensures Apply(NewConnecting(env.curve, privA, 0), Receive(SynAckTo(a, privA, privB, env).packet, 0), env)
      == Outcome(Met(privA, privB, env), [])
    ensures Apply(Met(privA, privB, env), Terminate(false, 0, 0), env).sent == [EndFrom(a, privA, privB, env).packet]
  {
    var c, p := NewConnecting(env.curve, privA, 0), SynAckTo(a, privA, privB, env).packet;
    assert c.Admits(p) && c.events + [ConnectedEvent] == [ConnectedEvent];
  }

  lemma EndHeard(a: Address, privA: PrivKey, privB: PrivKey, env: Env)
    ensures var c := NewConnected(env.curve, privB, env.curve.public(privA), 0);
      Apply(c, Receive(EndFrom(a, privA, privB, env).packet, 0), env)
      == Outcome(c.(status := TerminateReceived(0), events := [ConnectedEvent, EndedEvent]), [])
  {
    var c := NewConnected(env.curve, privB, env.curve.public(privA), 0);
    assert c.events == [ConnectedEvent] && [ConnectedEvent] + [] + [EndedEvent] == [ConnectedEvent, EndedEvent];
  }

  /** A packet to a known socket that answers nothing. */
  lemma EndArrives(w: World, d: Datagram, w': World, env: Env, before: Remote, after: Remote)
    requires d in w.network && d.to == SERVER && d.from == before.addr && w.remotes == map[d.packet.src := before]
    requires Apply(before.conn, Receive(d.packet, before.cachedNow), env) == Outcome(after.conn, [])
    requires after == before.(conn := after.conn) && w' == w.(remotes := map[d.packet.src := after])
    ensures Next(w, ServerReceive(d, 0, 0), w', env)
  {
    hide Apply;
    OnePosted(SERVER, d.from, d.packet);
    assert w.remotes[d.packet.src := after] == w'.remotes && w.births + {} == w.births && w.network + {} == w.network;
  }

  /**
   * Any client can connect and end: from the start there is a run in which its Syn makes a socket for it,
   * the answer connects it, and its End reaches that socket, whose user is told.
   */
  lemma Dialogue(a: Address, privA: PrivKey, privB: PrivKey, env: Env) returns (r: Run)
    requires a != SERVER
    ensures r.Valid() && r.env == env && |r.steps| == 5
    ensures r.steps[0] == Connect(a, privA, 0) && r.steps[1].ServerReceive? && r.steps[2].ClientReceive?
    ensures r.steps[3] == ClientAct(a, Terminate(false, 0, 0)) && r.steps[4].ServerReceive?
    ensures var (id, met, last) := (env.curve.public(privA)[..4], r.states[3], r.states[5]);
      && a in met.clients && met.clients[a].conn == Met(privA, privB, env)
      && id in met.remotes && met.remotes[id].conn.status == Connected
      && met.remotes[id].conn.secret == Shared(env.curve.agree(privB, env.curve.public(privA)))
      && id in last.remotes && last.remotes[id].conn.status == TerminateReceived(0)
      && last.remotes[id].conn.events == [ConnectedEvent, EndedEvent]
  {
    hide Apply;
    var key := env.curve.public(privA);
    var syn, synAck, end := SynFrom(a, privA, env), SynAckTo(a, privA, privB, env), EndFrom(a, privA, privB, env);
    var remote := NewRemote(a, key, privB, 0, env);
    var w1 := World(map[a := ClientSide(privA, env)], map[], {}, {syn});
    var w2 := w1.(remotes := map[key[..4] := remote], births := {Birth(a, key, privB, 0)}, network := {syn, synAck});
    var w3 := w2.(clients := map[a := Client(privA, Met(privA, privB, env))]);
    var over := Apply(Met(privA, privB, env), Terminate(false, 0, 0), env).conn;
    var w4 := w3.(clients := map[a := Client(privA, over)], network := {syn, synAck, end});
    var ended := remote.(conn := remote.conn.(status := TerminateReceived(0), events := [ConnectedEvent, EndedEvent]));
    var w5 := w4.(remotes := map[key[..4] := ended]);
    r := Run([INITIAL, w1, w2, w3, w4, w5],
             [Connect(a, privA, 0), ServerReceive(syn, privB, 0), ClientReceive(synAck, 0),
              ClientAct(a, Terminate(false, 0, 0)), ServerReceive(end, 0, 0)], env);
    FirstSteps(a, privA, privB, env, w1, w2);
    Answered(a, privA, privB, env);
    EndHeard(a, privA, privB, env);
    OnePosted(a, SERVER, end.packet);
    OnePosted(SERVER, a, end.packet);
    assert Next(w2, ClientReceive(synAck, 0), w3, env) by { assert {syn, synAck} + {} == {syn, synAck}; }
    assert Next(w3, ClientAct(a, Terminate(false, 0, 0)), w4, env) by {
      assert {syn, synAck} + {end} == {syn, synAck, end};
    }
    EndArrives(w4, end, w5, env, remote, ended);
    forall k | 0 <= k < |r.steps| ensures r.StepsTo(k) {
      assert k == 0 || k == 1 || k == 2 || k == 3 || k == 4;
    }
  }
}
