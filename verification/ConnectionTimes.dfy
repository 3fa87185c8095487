/**
 * When a connection times out, ends and repeats its Syn, read off the operations of its life: the packets
 * received, the ticks and the user's calls.
 */
module ConnectionTimes {
  import opened Prelude
  import opened Packet
  import opened Connection

  /** A socket as it is created at `at`, by its user or for a Syn. */
  ghost predicate Created(c: Conn, at: nat, env: Env) {
    || (exists priv :: c == NewConnecting(env.curve, priv, at))
    || (exists priv, other :: c == NewConnected(env.curve, priv, other, at))
  }

  /** The time of the last packet received, whatever it was, or of the creation. */
  function LastHeard(at: nat, ops: seq<Op>): nat {
    if ops == [] then at
    else if ops[|ops| - 1].Receive? then ops[|ops| - 1].now else LastHeard(at, ops[..|ops| - 1])
  }

  /** How long ago that was; never less than nothing. */
  function Silence(at: nat, ops: seq<Op>, now: nat): nat {
    var heard := LastHeard(at, ops);
    if now < heard then 0 else now - heard
  }

  predicate Unfinished(s: Status) { s.SynSent? || s.SynReceived? || s.Connected? }

  lemma {:induction false} HeardAt(c: Conn, at: nat, ops: seq<Op>, env: Env)
    requires Created(c, at, env)
    ensures Life(c, ops, env).lastReceived == LastHeard(at, ops)
  {
    hide Apply;
    if ops != [] {
      HeardAt(c, at, ops[..|ops| - 1], env);
      HeardNext(Life(c, ops[..|ops| - 1], env), ops[|ops| - 1], env);
    }
  }

  lemma HeardNext(d: Conn, op: Op, env: Env)
    ensures Apply(d, op, env).conn.lastReceived == if op.Receive? then op.now else d.lastReceived
  {}

  /**
   * A tick at `now` ends an unfinished connection exactly when nothing was received for the whole timeout
   * delay, and then tells its user; otherwise it tells nothing and leaves it unfinished.
   */
  lemma TimesOutExactly(c: Conn, at: nat, ops: seq<Op>, now: nat, env: Env)
    requires Created(c, at, env)
    ensures var (d, d') := (Life(c, ops, env), Life(c, ops + [Tick(now)], env));
      if Unfinished(d.status) && Silence(at, ops, now) >= env.timeoutDelay then
        d'.status == TimeoutError(now, Silence(at, ops, now)) && d'.events == d.events + [TimeoutEvent]
      else
        d'.events == d.events && (Unfinished(d'.status) <==> Unfinished(d.status)) && (d.status.SynSent? || d' == d)
  {
    hide Apply;
    HeardAt(c, at, ops, env);
    assert (ops + [Tick(now)])[..|ops|] == ops;
    TickEnds(Life(c, ops, env), now, env);
  }

  lemma TickEnds(d: Conn, now: nat, env: Env)
    ensures var d' := Apply(d, Tick(now), env).conn;
      var silence := if now < d.lastReceived then 0 else now - d.lastReceived;
      if Unfinished(d.status) && silence >= env.timeoutDelay then
        d'.status == TimeoutError(now, silence) && d'.events == d.events + [TimeoutEvent]
      else
        d'.events == d.events && (Unfinished(d'.status) <==> Unfinished(d.status)) && (d.status.SynSent? || d' == d)
  {
    assert d.events + [] == d.events;
  }

  // ----- The end of a connection -----

  /** The packet is addressed to `c` and comes from its peer. */
  predicate FromPeer(c: Conn, p: Packet) { p.dst == c.selfKey[..4] && p.src == c.otherKey[..4] }

  /**
   * The status that the operations so far end a connection with, if any: the user's call and the peer's
   * End or Abort always do, a silent tick only if nothing else has.
   */
  function EndedBy(c: Conn, at: nat, ops: seq<Op>, env: Env): Option<Status> {
    if ops == [] then None
    else
      var (front, op) := (ops[..|ops| - 1], ops[|ops| - 1]);
      var silence := if op.Tick? then Silence(at, front, op.now) else 0;
      NextEnd(EndedBy(c, at, front, env), Life(c, front, env), op, silence, env)
  }

  function NextEnd(before: Option<Status>, d: Conn, op: Op, silence: nat, env: Env): Option<Status> {
    match op
    case Terminate(_, _, now) => Some(TerminateSent(now))
    case Receive(p, now) =>
      if (p.variant.End? || p.variant.Abort?) && FromPeer(d, p) then Some(TerminateReceived(now)) else before
    case Tick(now) =>
      if before.None? && silence >= env.timeoutDelay then Some(TimeoutError(now, silence)) else before
  }

  /** The end says what the status is. */
  predicate Tells(end: Option<Status>, status: Status) {
    if end.Some? then status == end.value && !Unfinished(status) else Unfinished(status)
  }

  lemma NextTells(before: Option<Status>, d: Conn, op: Op, silence: nat, env: Env)
    requires Tells(before, d.status)
    requires op.Tick? ==> silence == if op.now < d.lastReceived then 0 else op.now - d.lastReceived
    ensures Tells(NextEnd(before, d, op, silence, env), Apply(d, op, env).conn.status)
  {}

  lemma {:induction false} FinishedExactly(c: Conn, at: nat, ops: seq<Op>, env: Env)
    requires Created(c, at, env)
    ensures Tells(EndedBy(c, at, ops, env), Life(c, ops, env).status)
  {
    hide Apply;
    hide NextEnd;
    hide Tells;
    if ops == [] {
      CreatedUnfinished(c, at, env);
    } else {
      var (front, op) := (ops[..|ops| - 1], ops[|ops| - 1]);
      FinishedExactly(c, at, front, env);
      HeardAt(c, at, front, env);
      NextTells(EndedBy(c, at, front, env), Life(c, front, env), op, if op.Tick? then Silence(at, front, op.now) else 0,
                env);
    }
  }

  lemma CreatedUnfinished(c: Conn, at: nat, env: Env)
    requires Created(c, at, env)
    ensures Tells(None, c.status)
  {}

  // ----- What the user is told -----

  function CountOf(events: seq<Event>, e: Event): nat {
    if events == [] then 0 else CountOf(events[..|events| - 1], e) + (if events[|events| - 1] == e then 1 else 0)
  }

  lemma CountNext(events: seq<Event>, last: Event, e: Event)
    ensures CountOf(events + [last], e) == CountOf(events, e) + (if last == e then 1 else 0)
  {
    assert (events + [last])[..|events|] == events;
  }

  /** How often the operations end the connection with this event. */
  function Endings(c: Conn, at: nat, ops: seq<Op>, env: Env, e: Event): nat {
    if ops == [] then 0
    else
      var (front, op) := (ops[..|ops| - 1], ops[|ops| - 1]);
      var silence := if op.Tick? then Silence(at, front, op.now) else 0;
      Endings(c, at, front, env, e)
      + if EndsWith(EndedBy(c, at, front, env), Life(c, front, env), op, silence, env, e) then 1 else 0
  }

  predicate EndsWith(before: Option<Status>, d: Conn, op: Op, silence: nat, env: Env, e: Event) {
    match op
    case Terminate(_, _, _) => e == EndedEvent
    case Receive(p, _) =>
      FromPeer(d, p) && ((p.variant.End? && e == EndedEvent) || (p.variant.Abort? && e == AbortedEvent))
    case Tick(now) => e == TimeoutEvent && before.None? && silence >= env.timeoutDelay
  }

  predicate IsEnding(e: Event) { e.EndedEvent? || e.AbortedEvent? || e.TimeoutEvent? }

  lemma NextTold(before: Option<Status>, d: Conn, op: Op, silence: nat, env: Env, e: Event)
    requires Tells(before, d.status) && IsEnding(e)
    requires op.Tick? ==> silence == if op.now < d.lastReceived then 0 else op.now - d.lastReceived
    ensures CountOf(Apply(d, op, env).conn.events, e)
      == CountOf(d.events, e) + if EndsWith(before, d, op, silence, env, e) then 1 else 0
  {
    hide CountOf;
    CountNext(d.events, ConnectedEvent, e);
    CountNext(d.events, EndedEvent, e);
    CountNext(d.events, AbortedEvent, e);
    CountNext(d.events, TimeoutEvent, e);
    if op.Receive? { CountNext(d.events, RawEvent(Wire(op.packet, env.crc)), e); }
    assert d.events + [] == d.events;
  }

  /** The user is told of every ending exactly once: by itself or the peer, by an abort, by a timeout. */
  lemma {:induction false} EndingsTold(c: Conn, at: nat, ops: seq<Op>, env: Env, e: Event)
    requires Created(c, at, env) && IsEnding(e)
    ensures CountOf(Life(c, ops, env).events, e) == Endings(c, at, ops, env, e)
  {
    hide Apply;
    hide Tells;
    hide EndsWith;
    if ops == [] {
      NothingTold(c, at, env, e);
    } else {
      var (front, op) := (ops[..|ops| - 1], ops[|ops| - 1]);
      EndingsTold(c, at, front, env, e);
      FinishedExactly(c, at, front, env);
      HeardAt(c, at, front, env);
      NextTold(EndedBy(c, at, front, env), Life(c, front, env), op, if op.Tick? then Silence(at, front, op.now) else 0,
               env, e);
    }
  }

  lemma NothingTold(c: Conn, at: nat, env: Env, e: Event)
    requires Created(c, at, env) && IsEnding(e)
    ensures CountOf(c.events, e) == 0
  {
    CountNext([], ConnectedEvent, e);
  }

  // ----- Connecting -----

  /** A connecting socket connects exactly with a SynAck addressed to it, and takes its key from there. */
  lemma ConnectsExactly(c: Conn, op: Op, env: Env)
    requires c.status.SynSent?
    ensures Apply(c, op, env).conn.status.Connected? <==>
      op.Receive? && op.packet.variant.SynAck? && op.packet.dst == c.selfKey[..4]
    ensures Apply(c, op, env).conn.status.Connected? && c.secret.Ours? ==>
      && Apply(c, op, env).conn.otherKey == op.packet.variant.key
      && Apply(c, op, env).conn.secret == Shared(env.curve.agree(c.secret.priv, op.packet.variant.key))
      && Apply(c, op, env).conn.events == c.events + [ConnectedEvent]
  {}

  /** The time of the last tick that sent the Syn again, or of the creation. */
  function LastSyn(c: Conn, at: nat, ops: seq<Op>, env: Env): nat {
    if ops == [] then at
    else
      var (front, op) := (ops[..|ops| - 1], ops[|ops| - 1]);
      if op.Tick? && Apply(Life(c, front, env), op, env).sent != [] then op.now else LastSyn(c, at, front, env)
  }

  lemma {:induction false} SynSentAt(c: Conn, at: nat, ops: seq<Op>, env: Env)
    requires Created(c, at, env) && Life(c, ops, env).status.SynSent?
    ensures Life(c, ops, env).status.at == LastSyn(c, at, ops, env)
  {
    if ops != [] { SynSentAt(c, at, ops[..|ops| - 1], env); }
  }

  /** A tick sends the Syn again exactly while connecting, without a timeout, more than 3 s after the last one. */
  lemma SynAgainExactly(c: Conn, at: nat, ops: seq<Op>, now: nat, env: Env)
    requires Created(c, at, env)
    ensures var d := Life(c, ops, env);
      Apply(d, Tick(now), env).sent ==
        if d.status.SynSent? && Silence(at, ops, now) < env.timeoutDelay
           && now > LastSyn(c, at, ops, env) + 3_000_000_000
        then [Packet(d.selfKey[..4], d.otherKey[..4], Syn(d.selfKey))] else []
  {
    HeardAt(c, at, ops, env);
    if Life(c, ops, env).status.SynSent? { SynSentAt(c, at, ops, env); }
  }

  /** What a packet is answered with: a Syn with a SynAck, unless the socket is disconnected; nothing else at all. */
  lemma AnswersExactly(c: Conn, p: Packet, now: nat, env: Env)
    ensures Apply(c, Receive(p, now), env).sent ==
      if p.variant.Syn? && !c.status.TimeoutError? && !c.status.TerminateReceived?
      then [Packet(c.selfKey[..4], c.otherKey[..4], SynAck(c.selfKey))] else []
  {}

  /** What the user's call sends: an End, or an Abort, unless the socket is disconnected. */
  lemma EndSentExactly(c: Conn, abort: bool, lastSeqId: u32, now: nat, env: Env)
    ensures Apply(c, Terminate(abort, lastSeqId, now), env).sent ==
      if c.status.TimeoutError? || c.status.TerminateReceived? then []
      else [Packet(c.selfKey[..4], c.otherKey[..4], if abort then Abort(lastSeqId) else End(lastSeqId))]
  {}
}
