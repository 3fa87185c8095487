/** The server's side: one socket per identity, all behind one address (net/listener.rs). */
module Listener {
  import opened Prelude
  import opened Packet
  import opened Connection

  type Address = nat

  /** One socket of the listener, reduced to its connection, with the peer's address and the clock it last saw. */
  datatype Remote = Remote(addr: Address, conn: Conn, cachedNow: nat)
  {
    predicate ShouldClear() { conn.status.IsFinishedAndOld(cachedNow) }
  }

  type Remotes = map<Identity, Remote>

  /** A packet on its way to `to`. */
  datatype Outbound = Outbound(to: Address, packet: Packet)

  datatype Routed = Routed(remotes: Remotes, sent: seq<Packet>)

  function NewRemote(from: Address, key: PubKey, priv: PrivKey, now: nat, env: Env): Remote {
    Remote(from, NewConnected(env.curve, priv, key, now), now)
  }

  /** One packet from `from`; whatever is sent in return goes back there. */
  function Incoming(remotes: Remotes, p: Packet, from: Address, priv: PrivKey, now: nat, env: Env): Routed {
    if p.src in remotes then
      var r := remotes[p.src];
      if from != r.addr then Routed(remotes, [])
      else
        var o := Apply(r.conn, Receive(p, r.cachedNow), env);
        Routed(remotes[p.src := r.(conn := o.conn)], o.sent)
    else if p.variant.Syn? then
      var r := NewRemote(from, p.variant.key, priv, now, env);
      Routed(remotes[p.src := r], r.conn.Sends(SynAck(r.conn.selfKey)))
    else Routed(remotes, [])
  }

  /**
   * Where a packet goes: only the socket of its source, at its own address, hears it, by its own clock; a
   * Syn from an unknown source makes a connected socket for it; nothing else changes anything.
   */
  lemma RoutesExactly(remotes: Remotes, p: Packet, from: Address, priv: PrivKey, now: nat, env: Env)
    ensures var (after, sent) := (Incoming(remotes, p, from, priv, now, env).remotes,
                                  Incoming(remotes, p, from, priv, now, env).sent);
      && (forall id :: id != p.src ==> (id in after <==> id in remotes) && (id in remotes ==> after[id] == remotes[id]))
      && if p.src in remotes then
           && p.src in after
           && if from == remotes[p.src].addr then
                && after[p.src].conn.lastReceived == remotes[p.src].cachedNow
                && after[p.src] == remotes[p.src].(conn := after[p.src].conn)
                && (p.variant.End? && p.dst == remotes[p.src].conn.selfKey[..4]
                    && p.src == remotes[p.src].conn.otherKey[..4] ==>
                      after[p.src].conn.status == TerminateReceived(remotes[p.src].cachedNow))
              else after == remotes && sent == []
         else if p.variant.Syn? then
           && p.src in after && after[p.src].addr == from && after[p.src].conn.otherKey == p.variant.key
           && after[p.src].conn.status.Connected? && after[p.src].conn.lastReceived == after[p.src].cachedNow == now
           && sent == [Packet(env.curve.public(priv)[..4], p.variant.key[..4], SynAck(env.curve.public(priv)))]
         else after == remotes && sent == []
  {}

  function Cleared(remotes: Remotes): Remotes {
    map id | id in remotes && !remotes[id].ShouldClear() :: remotes[id]
  }

  function Clocked(remotes: Remotes, now: nat): Remotes {
    map id | id in remotes :: remotes[id].(cachedNow := now)
  }

  function TickOf(r: Remote, env: Env): Outcome { Ticked(r.conn, r.cachedNow, env) }

  function TickedAll(remotes: Remotes, env: Env): Remotes {
    map id | id in remotes :: remotes[id].(conn := TickOf(remotes[id], env).conn)
  }

  /** A round of ticks times out just the unfinished sockets that heard nothing for the delay, by their own clocks. */
  lemma TicksTimeOutExactly(remotes: Remotes, env: Env, id: Identity)
    requires id in remotes && !remotes[id].conn.status.SynSent?
    ensures var (c, c', now) := (remotes[id].conn, TickedAll(remotes, env)[id].conn, remotes[id].cachedNow);
      var silence := if now < c.lastReceived then 0 else now - c.lastReceived;
      if (c.status.SynReceived? || c.status.Connected?) && silence >= env.timeoutDelay then
        c' == c.(status := TimeoutError(now, silence), events := c.events + [TimeoutEvent])
      else c' == c
  {}

  function ToAll(to: Address, packets: seq<Packet>): set<Outbound> {
    set p | p in packets :: Outbound(to, p)
  }

  /** Everything the sockets send of their own accord in one round of ticks. */
  function TickSends(remotes: Remotes, env: Env): set<Outbound> {
    set id, p | id in remotes && p in TickOf(remotes[id], env).sent :: Outbound(remotes[id].addr, p)
  }

  datatype Arrival = Arrival(bytes: seq<byte>, from: Address, priv: PrivKey, now: nat)

  datatype View = View(remotes: Remotes, sent: set<Outbound>, unknown: seq<(seq<byte>, Address)>)

  function Arrived(v: View, a: Arrival, transferRaw: bool, env: Env): View {
    match FromBytes(a.bytes, env.crc)
    case Err(_) => if transferRaw then v.(unknown := v.unknown + [(a.bytes, a.from)]) else v
    case Ok(p) =>
      var routed := Incoming(v.remotes, p, a.from, a.priv, a.now, env);
      v.(remotes := routed.remotes, sent := v.sent + ToAll(a.from, routed.sent))
  }

  function AllArrived(v: View, arrivals: seq<Arrival>, transferRaw: bool, env: Env): View {
    if arrivals == [] then v
    else Arrived(AllArrived(v, arrivals[..|arrivals| - 1], transferRaw, env), arrivals[|arrivals| - 1], transferRaw,
                 env)
  }

  class Listener {
    const env: Env
    const transferUnknownRaw: bool
    var remotes: Remotes
    var sent: set<Outbound>
    var unknownMessages: seq<(seq<byte>, Address)>

    ghost function Now(): View
      reads this
    {
      View(remotes, sent, unknownMessages)
    }

    constructor (env: Env, transferUnknownRaw: bool)
      ensures this.env == env && this.transferUnknownRaw == transferUnknownRaw && Now() == View(map[], {}, [])
    {
      this.env, this.transferUnknownRaw := env, transferUnknownRaw;
      remotes, sent, unknownMessages := map[], {}, [];
    }

    /** Hands a packet to the socket of its source, or opens one for a Syn from a new source. */
    method ProcessOneIncoming(a: Arrival)
      modifies this
      ensures Now() == Arrived(old(Now()), a, transferUnknownRaw, env)
      ensures unknownMessages == old(unknownMessages)
        + if FromBytes(a.bytes, env.crc).Err? && transferUnknownRaw then [(a.bytes, a.from)] else []
    {
      match FromBytes(a.bytes, env.crc) {
        case Err(_) =>
          if transferUnknownRaw {
            unknownMessages := unknownMessages + [(a.bytes, a.from)];
          }
        case Ok(p) =>
          var replies: seq<Packet> := [];
          if p.src in remotes {
            var r := remotes[p.src];
            if a.from == r.addr {
              var o := Apply(r.conn, Receive(p, r.cachedNow), env);
              remotes := remotes[p.src := r.(conn := o.conn)];
              replies := o.sent;
            }
          } else if p.variant.Syn? {
            var r := NewRemote(a.from, p.variant.key, a.priv, a.now, env);
            replies := r.conn.Sends(SynAck(r.conn.selfKey));
            remotes := remotes[p.src := r];
          }
          sent := sent + ToAll(a.from, replies);
      }
    }

    /** Forgets old finished sockets by the clock they last saw, moves the clock, reads what arrived, ticks. */
    method Process(arrivals: seq<Arrival>, now: nat)
      modifies this
      ensures var v :=
        AllArrived(old(Now()).(remotes := Clocked(Cleared(old(remotes)), now)), arrivals, transferUnknownRaw, env);
        Now() == View(TickedAll(v.remotes, env), v.sent + TickSends(v.remotes, env), v.unknown)
    {
      Retain();
      UpdateCachedNow(now);
      ghost var v := Now();
      for n := 0 to |arrivals|
        invariant Now() == AllArrived(v, arrivals[..n], transferUnknownRaw, env)
      {
        assert arrivals[..n + 1][..n] == arrivals[..n];
        ProcessOneIncoming(arrivals[n]);
      }
      assert arrivals[..|arrivals|] == arrivals;
      TickRemotes();
    }

    method Retain()
      modifies this`remotes
      ensures remotes == Cleared(old(remotes))
      ensures forall id :: id in old(remotes) ==>
        (id !in remotes <==>
          var (status, now) := (old(remotes)[id].conn.status, old(remotes)[id].cachedNow);
          && (status.TimeoutError? || status.TerminateSent? || status.TerminateReceived?)
          && now >= status.since + 2_000_000_000)
    {
      var todo, kept: Remotes := remotes.Keys, map[];
      while todo != {}
        invariant todo <= remotes.Keys && remotes == old(remotes)
        invariant forall id :: id in kept <==> id in remotes && id !in todo && !remotes[id].ShouldClear()
        invariant forall id :: id in kept ==> kept[id] == remotes[id]
      {
        var id :| id in todo;
        if !remotes[id].ShouldClear() {
          kept := kept[id := remotes[id]];
        }
        todo := todo - {id};
      }
      remotes := kept;
    }

    method UpdateCachedNow(now: nat)
      modifies this`remotes
      ensures remotes == Clocked(old(remotes), now)
    {
      var todo := remotes.Keys;
      while todo != {}
        invariant todo <= remotes.Keys == old(remotes).Keys
        invariant forall id :: id in remotes ==>
          remotes[id] == if id in todo then old(remotes)[id] else old(remotes)[id].(cachedNow := now)
      {
        var id :| id in todo;
        remotes := remotes[id := remotes[id].(cachedNow := now)];
        todo := todo - {id};
      }
    }

    method TickRemotes()
      modifies this`remotes, this`sent
      ensures remotes == TickedAll(old(remotes), env) && sent == old(sent) + TickSends(old(remotes), env)
    {
      hide TickOf;
      hide TickSends;
      hide ToAll;
      hide PartlyTicked;
      hide TickedAll;
      ghost var before := remotes;
      var todo := remotes.Keys;
      NoneTicked(before, env);
      while todo != {}
        invariant todo <= before.Keys && PartlyTicked(before, remotes, todo, env)
        invariant sent == old(sent) + TickSends(before - todo, env)
      {
        var id :| id in todo;
        TickedNext(before, remotes, todo, id, env);
        var r := remotes[id];
        var o := TickOf(r, env);
        remotes := remotes[id := r.(conn := o.conn)];
        sent := sent + ToAll(r.addr, o.sent);
        todo := todo - {id};
      }
      AllTicked(before, remotes, env);
    }
  }

  /** The sockets outside `todo` have ticked. */
  ghost predicate PartlyTicked(before: Remotes, now: Remotes, todo: set<Identity>, env: Env) {
    now.Keys == before.Keys &&
    forall id :: id in now ==>
      now[id] == if id in todo then before[id] else before[id].(conn := TickOf(before[id], env).conn)
  }

  lemma NoneTicked(before: Remotes, env: Env)
    ensures PartlyTicked(before, before, before.Keys, env) && TickSends(before - before.Keys, env) == {}
  {}

  lemma AllTicked(before: Remotes, now: Remotes, env: Env)
    requires PartlyTicked(before, now, {}, env)
    ensures now == TickedAll(before, env) && before - {} == before
  {}

  lemma TickedNext(before: Remotes, now: Remotes, todo: set<Identity>, id: Identity, env: Env)
    requires id in todo && todo <= before.Keys && PartlyTicked(before, now, todo, env)
    ensures id in now && now[id] == before[id]
    ensures PartlyTicked(before, now[id := now[id].(conn := TickOf(now[id], env).conn)], todo - {id}, env)
    ensures TickSends(before - (todo - {id}), env)
      == TickSends(before - todo, env) + ToAll(now[id].addr, TickOf(now[id], env).sent)
  {
    hide TickOf;
    hide TickSends;
    hide ToAll;
    TickSendsNext(before - todo, id, before[id], env);
    assert before - (todo - {id}) == (before - todo)[id := before[id]];
  }

  lemma TickSendsNext(done: Remotes, id: Identity, r: Remote, env: Env)
    requires id !in done
    ensures TickSends(done[id := r], env) == TickSends(done, env) + ToAll(r.addr, TickOf(r, env).sent)
  {
    var next := done[id := r];
    forall o | o in TickSends(done, env) ensures o in TickSends(next, env) {
      var i, p :| i in done && p in TickOf(done[i], env).sent && o == Outbound(done[i].addr, p);
      assert next[i] == done[i];
    }
    forall o | o in ToAll(r.addr, TickOf(r, env).sent) ensures o in TickSends(next, env) {
      assert next[id] == r;
    }
  }
}
