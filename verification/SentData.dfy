/** The sending side: messages kept until they are acknowledged, and their repair (sent_data_tracker.rs). */
module SentData {
  import opened Prelude
  import opened AckBitmap
  import opened Fragmentation

  const SEQ_DATA_CLEANUP_DELAY: nat := 5000 * MILLISECOND

  /** How to send a plain message; encrypted ones are in `Sealed`. */
  datatype SendOptions = SendOptions(resendDelay: nat, expiration: Option<nat>, key: bool)

  function SendFlags(options: SendOptions): SetFlags {
    SetFlag(SetFlag(NO_FLAGS, IS_EXPIRE_BIT, options.expiration.Some?), IS_KEY_BIT, options.key)
  }

  datatype ReceivedAck = ReceivedAck(at: nat, ack: Bitmap)
  /** The oldest and the newest acknowledgement since the last (re)send. */
  datatype Unanswered = Unanswered(oldest: nat, newest: nat)

  /** Time elapsed since `t`; zero if `t` is still to come. */
  function Since(now: nat, t: nat): nat {
    if now >= t then now - t else 0
  }

  datatype SentSet = SentSet(
    data: seq<byte>,
    fragTotal: u8,
    expiration: Option<nat>,
    lastReceivedAck: Option<ReceivedAck>,
    lastSentPacket: nat,
    completeSince: Option<nat>,
    unansweredAck: Option<Unanswered>,
    resendDelay: nat)
  {
    /** The data was sent once, so it can be cut again. */
    predicate Valid() {
      Sendable(data) && fragTotal == FragTotal(data)
    }

    predicate IsExpired(now: nat) {
      expiration.Some? && now > expiration.value
    }

    /** The tick at `now` drops the message, received or not. */
    predicate Dropped(now: nat) {
      IsExpired(now) || (completeSince.Some? && Since(now, completeSince.value) >= SEQ_DATA_CLEANUP_DELAY)
    }

    /** It is time for a repair round. */
    predicate ResendTime(now: nat) {
      || now >= lastSentPacket + resendDelay
      || (unansweredAck.Some? &&
          (now >= unansweredAck.value.oldest + resendDelay * 4 / 5
            || Since(now, unansweredAck.value.newest) >= resendDelay * 3 / 5))
    }

    /** The tick at `now` runs a repair round of this message. */
    predicate Resends(now: nat) {
      !IsExpired(now) && completeSince.None? && ResendTime(now)
    }

    /** The last acknowledgement received misses nothing, by the total that cutting `data` again gives. */
    predicate AllAcked() {
      lastReceivedAck.Some? && Sendable(data) && MissingIds(lastReceivedAck.value.ack, FragTotal(data)) == []
    }

    /** The set after a repair round at `now`. */
    function AfterResend(now: nat): SentSet {
      this.(unansweredAck := None, lastSentPacket := now,
            completeSince := if AllAcked() then Some(lastReceivedAck.value.at) else completeSince)
    }

    function Ticked(now: nat): SentSet {
      if Resends(now) then AfterResend(now) else this
    }

    function AckReceived(ack: Bitmap, now: nat): SentSet {
      this.(lastReceivedAck := Some(ReceivedAck(now, ack)),
            unansweredAck := Some(Unanswered(if unansweredAck.Some? then unansweredAck.value.oldest else now, now)))
    }
  }

  function NewSentSet(data: seq<byte>, now: nat, options: SendOptions): SentSet
    requires Sendable(data)
  {
    SentSet(data, FragTotal(data), if options.expiration.Some? then Some(now + options.expiration.value) else None,
            None, now, None, None, options.resendDelay)
  }

  function ResendFlags(set_: SentSet): SetFlags {
    SetFlag(NO_FLAGS, IS_EXPIRE_BIT, set_.expiration.Some?)
  }

  /** The flags on the wire: bit 0 for a key message, bit 1 for one that expires; repairs carry the second only. */
  lemma FlagsExactly(options: SendOptions, set_: SentSet)
    ensures SendFlags(options) == (if options.key then 1 else 0) + (if options.expiration.Some? then 2 else 0)
    ensures ResendFlags(set_) == if set_.expiration.Some? then 2 else 0
  {
    assert WithBit(0, 1, true) == 2 * WithBit(0, 0, true) == 2;
    assert WithBit(0, 1, false) == 2 * WithBit(0, 0, false) == 0;
  }

  /** The fragments with the given ids, in that order. */
  function Pick(fragments: seq<Fragment>, ids: seq<u8>): seq<Fragment>
    requires forall id :: id in ids ==> id < |fragments|
  {
    seq(|ids|, i requires 0 <= i < |ids| => assert ids[i] in ids; fragments[ids[i]])
  }

  /** What a repair round sends: the fragments the last acknowledgement misses, or all without one. */
  function Resent(set_: SentSet, s: u32): seq<Fragment>
    requires set_.Valid()
  {
    var all := FragmentsOf(set_.data, s, ResendFlags(set_));
    if set_.lastReceivedAck.None? then all
    else Pick(all, MissingIds(set_.lastReceivedAck.value.ack, FragTotal(set_.data)))
  }

  type Sets = map<u32, SentSet>

  ghost predicate ValidSets(sets: Sets) {
    forall s :: s in sets ==> sets[s].Valid()
  }

  /** What the tracker reports of `s`; `None` is the error of an unknown, or already forgotten, sequence id. */
  function ReportOf(sets: Sets, s: u32): Option<bool> {
    if s in sets then Some(sets[s].completeSince.Some?) else None
  }

  function TickSets(sets: Sets, now: nat): Sets {
    map s | s in sets && !sets[s].Dropped(now) :: sets[s].Ticked(now)
  }

  /** The fragments of message `s`, in order. */
  function OfMessage(sent: seq<Fragment>, s: u32): seq<Fragment> {
    if sent == [] then []
    else OfMessage(sent[..|sent| - 1], s) + (if sent[|sent| - 1].seqId == s then [sent[|sent| - 1]] else [])
  }

  lemma {:induction false} OfMessageConcat(a: seq<Fragment>, b: seq<Fragment>, s: u32)
    ensures OfMessage(a + b, s) == OfMessage(a, s) + OfMessage(b, s)
  {
    if b == [] {
      assert a + b == a;
    } else {
      var front, last := b[..|b| - 1], b[|b| - 1];
      OfMessageConcat(a, front, s);
      assert (a + b)[..|a + b| - 1] == a + front && (a + b)[|a + b| - 1] == last;
      ConcatAssociates(OfMessage(a, s), OfMessage(front, s), if last.seqId == s then [last] else []);
    }
  }

  lemma {:induction false} OfMessageUniform(sent: seq<Fragment>, t: u32, s: u32)
    requires forall f :: f in sent ==> f.seqId == t
    ensures OfMessage(sent, s) == if s == t then sent else []
  {
    if sent != [] {
      OfMessageUniform(sent[..|sent| - 1], t, s);
      assert sent[|sent| - 1] in sent;
    }
  }

  lemma ResentSeqId(set_: SentSet, s: u32)
    requires set_.Valid()
    ensures forall f :: f in Resent(set_, s) ==> f.seqId == s
  {
    var all := FragmentsOf(set_.data, s, ResendFlags(set_));
    assert forall f :: f in all ==> f.seqId == s;
    if set_.lastReceivedAck.Some? {
      var ids := MissingIds(set_.lastReceivedAck.value.ack, set_.fragTotal);
      forall i | 0 <= i < |ids| ensures Pick(all, ids)[i].seqId == s {
        assert ids[i] in ids;
      }
    }
  }

  /** What the tick at `now` sends of message `s`. */
  function Round(sets: Sets, s: u32, now: nat): seq<Fragment>
    requires s in sets ==> sets[s].Valid()
  {
    if s in sets && sets[s].Resends(now) then Resent(sets[s], s) else []
  }

  /** What the tick makes of one entry. */
  datatype Visit = Visit(next: SentSet, sent: seq<Fragment>, remove: bool)

  function VisitOf(set_: SentSet, s: u32, now: nat): Visit
    requires set_.Valid()
  {
    Visit(set_.Ticked(now), if set_.Resends(now) then Resent(set_, s) else [], set_.Dropped(now))
  }

  /** What has been sent is what the visits outside `todo` send. */
  ghost predicate SentSoFar(sent: seq<Fragment>, visits: map<u32, Visit>, todo: set<u32>) {
    forall s: u32 :: OfMessage(sent, s) == (if s in visits && s !in todo then visits[s].sent else [])
  }

  lemma NothingSentSoFar(visits: map<u32, Visit>)
    ensures SentSoFar([], visits, visits.Keys)
  {}

  lemma SentNext(sent: seq<Fragment>, visits: map<u32, Visit>, todo: set<u32>, s: u32)
    requires s in visits && s in todo && SentSoFar(sent, visits, todo)
    requires forall f :: f in visits[s].sent ==> f.seqId == s
    ensures SentSoFar(sent + visits[s].sent, visits, todo - {s})
  {
    forall t: u32
      ensures OfMessage(sent + visits[s].sent, t) == (if t in visits && t !in todo - {s} then visits[t].sent else [])
    {
      OfMessageConcat(sent, visits[s].sent, t);
      OfMessageUniform(visits[s].sent, s, t);
      assert OfMessage(sent, t) == (if t in visits && t !in todo then visits[t].sent else []);
    }
  }

  datatype SendResult = Ok | Err(error: SendError)

  class SentDataTracker {
    var sets: Sets

    ghost predicate Valid()
      reads this
    {
      ValidSets(sets)
    }

    constructor ()
      ensures Valid() && sets == map[]
    {
      sets := map[];
    }

    /**
     * Cuts and sends a message, and tracks it when it is a key message. Its sequence id must be new then:
     * registering one twice is a panic.
     */
    method SendData(s: u32, data: seq<byte>, now: nat, options: SendOptions)
      returns (r: SendResult, sent: seq<Fragment>)
      requires Valid() && (s in sets ==> !(options.key && Sendable(data)))
      modifies this
      ensures Valid()
      ensures r.Ok? <==> Sendable(data)
      ensures r.Ok? ==> sent == FragmentsOf(data, s, SendFlags(options))
      ensures r.Ok? ==> sets == if options.key then old(sets)[s := NewSentSet(data, now, options)] else old(sets)
      ensures r.Err? ==> sent == [] && sets == old(sets)
      ensures r.Err? ==> r.error == if data == [] then SentMsgEmpty else SentMsgTooBig(|data|)
    {
      SendableLimit(data);
      var built := BuildFragmentsFromBytes(data, s, SendFlags(options), false);
      if built.Refused? {
        return Err(built.error), [];
      }
      if options.key {
        sets := sets[s := NewSentSet(data, now, options)];
      }
      return Ok, built.fragments;
    }

    method IsSeqIdReceived(s: u32) returns (r: Option<bool>)
      ensures r == ReportOf(sets, s)
    {
      return if s in sets then Some(sets[s].completeSince.Some?) else None;
    }

    method ReceiveAck(s: u32, ack: Bitmap, now: nat)
      requires Valid()
      modifies this
      ensures Valid()
      ensures sets == if s in old(sets) then old(sets)[s := old(sets)[s].AckReceived(ack, now)] else old(sets)
    {
      if s in sets {
        sets := sets[s := sets[s].AckReceived(ack, now)];
      }
    }

    /** Drops what is expired or long received, and runs the repair rounds that are due. */
    method NextTick(now: nat) returns (sent: seq<Fragment>)
      requires Valid()
      modifies this
      ensures Valid()
      ensures sets == TickSets(old(sets), now)
      ensures forall s: u32 :: OfMessage(sent, s) == Round(old(sets), s, now)
    {
      ghost var visits := map s | s in sets :: VisitOf(sets[s], s, now);
      var live, dropped;
      live, dropped, sent := TickAll(sets, now, visits);
      VisitsMakeTick(sets, now, visits, live, dropped);
      sets := live - dropped;
    }
  }

  lemma VisitsMakeTick(sets: Sets, now: nat, visits: map<u32, Visit>, live: Sets, dropped: set<u32>)
    requires ValidSets(sets)
    requires visits.Keys == sets.Keys && forall s :: s in sets ==> visits[s] == VisitOf(sets[s], s, now)
    requires live.Keys == sets.Keys && forall s :: s in sets ==> live[s] == visits[s].next
    requires forall s :: s in dropped <==> s in sets && visits[s].remove
    ensures live - dropped == TickSets(sets, now) && ValidSets(live - dropped)
    ensures forall s: u32 :: Round(sets, s, now) == if s in visits then visits[s].sent else []
  {}

  /** Visits every entry once, in any order. */
  method TickAll(sets: Sets, now: nat, ghost visits: map<u32, Visit>)
    returns (live: Sets, dropped: set<u32>, sent: seq<Fragment>)
    requires ValidSets(sets)
    requires visits.Keys == sets.Keys && forall s :: s in sets ==> visits[s] == VisitOf(sets[s], s, now)
    ensures live.Keys == sets.Keys && forall s :: s in sets ==> live[s] == visits[s].next
    ensures forall s :: s in dropped <==> s in sets && visits[s].remove
    ensures SentSoFar(sent, visits, {})
  {
    hide VisitOf;
    hide SentSoFar;
    live := map[];
    dropped := {};
    sent := [];
    var todo := sets.Keys;
    NothingSentSoFar(visits);
    while todo != {}
      invariant todo <= sets.Keys && live.Keys == sets.Keys - todo
      invariant forall s :: s in live ==> live[s] == visits[s].next
      invariant forall s :: s in dropped <==> s in live && visits[s].remove
      invariant SentSoFar(sent, visits, todo)
    {
      var s :| s in todo;
      var next, round, remove := TickOne(sets[s], s, now);
      live := live[s := next];
      if remove {
        dropped := dropped + {s};
      }
      SentNext(sent, visits, todo, s);
      sent := sent + round;
      todo := todo - {s};
    }
  }

  /** One entry of the tick: drop it, leave it, or attempt a repair round. */
  method TickOne(set_: SentSet, s: u32, now: nat) returns (next: SentSet, sent: seq<Fragment>, remove: bool)
    requires set_.Valid()
    ensures Visit(next, sent, remove) == VisitOf(set_, s, now)
    ensures forall f :: f in sent ==> f.seqId == s
  {
    ResentSeqId(set_, s);
    if set_.IsExpired(now) {
      return set_, [], true;
    }
    if set_.completeSince.Some? {
      return set_, [], Since(now, set_.completeSince.value) >= SEQ_DATA_CLEANUP_DELAY;
    }
    var complete;
    next, sent, complete := AttemptResendPackets(set_, s, now);
    if complete.Some? {
      next := next.(completeSince := complete);
    }
    remove := false;
  }

  /** Runs a repair round when it is time; reports when the message turned out to be received. */
  method AttemptResendPackets(set_: SentSet, s: u32, now: nat)
    returns (next: SentSet, sent: seq<Fragment>, complete: Option<nat>)
    requires set_.Valid()
    ensures sent == if set_.ResendTime(now) then Resent(set_, s) else []
    ensures next == if set_.ResendTime(now) then set_.(unansweredAck := None, lastSentPacket := now) else set_
    ensures complete == if set_.ResendTime(now) && set_.AllAcked() then Some(set_.lastReceivedAck.value.at) else None
  {
    if now >= set_.lastSentPacket + set_.resendDelay {
      next, sent, complete := ResendPackets(set_, s, now);
      return;
    }
    match set_.unansweredAck
    case Some(Unanswered(oldest, newest)) =>
      if now >= oldest + set_.resendDelay * 4 / 5 || Since(now, newest) >= set_.resendDelay * 3 / 5 {
        next, sent, complete := ResendPackets(set_, s, now);
      } else {
        return set_, [], None;
      }
    case None =>
      return set_, [], None;
  }

  method ResendPackets(set_: SentSet, s: u32, now: nat)
    returns (next: SentSet, sent: seq<Fragment>, complete: Option<nat>)
    requires set_.Valid()
    ensures sent == Resent(set_, s)
    ensures next == set_.(unansweredAck := None, lastSentPacket := now)
    ensures complete == if set_.AllAcked() then Some(set_.lastReceivedAck.value.at) else None
  {
    var built := BuildFragmentsFromBytes(set_.data, s, ResendFlags(set_), false);
    var all := built.fragments;
    complete := None;
    sent := [];
    match set_.lastReceivedAck {
      case Some(ReceivedAck(at, ack)) =>
        var missing := MissingIds(ack, built.fragTotal);
        ghost var picked := Pick(all, missing);
        var isComplete := true;
        for n := 0 to |missing|
          invariant isComplete <==> n == 0
          invariant sent == picked[..n]
        {
          assert missing[n] in missing && picked[n] == all[missing[n]];
          isComplete := false;
          sent := sent + [all[missing[n]]];
        }
        if isComplete {
          complete := Some(at);
        }
      case None =>
        for n := 0 to |all|
          invariant sent == all[..n]
        {
          sent := sent + [all[n]];
        }
    }
    next := set_.(unansweredAck := None, lastSentPacket := now);
  }
}
