/**
 * One direction of a connection: a sender, a receiver and a network that may lose, repeat and reorder
 * every packet. Encryption is off.
 */
module Delivery {
  import opened Prelude
  import opened AckBitmap
  import opened Fragmentation
  import opened Assembler
  import opened SentData

  // ----- Genuine fragments -----

  /** `f` is a fragment of message `s` with the bytes `data`, whatever its other flags. */
  ghost predicate Genuine(f: Fragment, s: u32, data: seq<byte>) {
    f.seqId == s && PartOf(f, data) && !IsEncrypted(f.flags)
  }

  ghost predicate GenuineMap(m: map<u8, Fragment>, s: u32, data: seq<byte>) {
    forall id :: id in m ==> m[id].fragId == id && Genuine(m[id], s, data)
  }

  /** The fragments of a set that is neither empty nor full. */
  ghost predicate GenuineSet(m: map<u8, Fragment>, s: u32, data: seq<byte>) {
    Sendable(data) && GenuineMap(m, s, data) && 0 < |m| <= FragTotal(data)
  }

  lemma SentFragmentsGenuine(data: seq<byte>, s: u32, options: SendOptions)
    requires Sendable(data)
    ensures forall f :: f in FragmentsOf(data, s, SendFlags(options)) ==> Genuine(f, s, data)
  {
    NoFlagsSet();
    FlaggedGenuine(data, s, SendFlags(options));
  }

  lemma FlaggedGenuine(data: seq<byte>, s: u32, flags: SetFlags)
    requires Sendable(data) && !IsEncrypted(flags)
    ensures forall f :: f in FragmentsOf(data, s, flags) ==> Genuine(f, s, data)
  {}

  lemma ResentGenuine(set_: SentSet, s: u32)
    requires set_.Valid()
    ensures forall f :: f in Resent(set_, s) ==> Genuine(f, s, set_.data)
  {
    NoFlagsSet();
    var all := FragmentsOf(set_.data, s, ResendFlags(set_));
    FlaggedGenuine(set_.data, s, ResendFlags(set_));
    if set_.lastReceivedAck.Some? {
      var ids := MissingIds(set_.lastReceivedAck.value.ack, set_.fragTotal);
      forall i | 0 <= i < |ids| ensures Genuine(Pick(all, ids)[i], s, set_.data) {
        assert ids[i] in ids && all[ids[i]] in all;
      }
    }
  }

  /** All the distinct fragments of a message, however gathered, rebuild it. */
  lemma GenuineFull(m: map<u8, Fragment>, s: u32, data: seq<byte>)
    requires Sendable(data) && GenuineMap(m, s, data) && |m| > FragTotal(data)
    ensures |m| == FragTotal(data) + 1 && Joined(m, |m|) == data
  {
    var n := FragTotal(data) + 1;
    forall id | id in m ensures id in Below(n) { assert Genuine(m[id], s, data); }
    assert |m.Keys| == |m|;
    SubsetOfSameSize(m.Keys, Below(n));
    assert forall i: u8 :: i <= FragTotal(data) ==> i in Below(n);
    JoinedWhole(m, data);
  }

  ghost predicate GenuinePrev(prev: Option<AssemblySet>, s: u32, data: seq<byte>) {
    prev.Some? && prev.value.state.Incomplete? ==> GenuineSet(prev.value.state.fragments, s, data)
  }

  /** Pushing a genuine fragment to a genuine set delivers the message exactly when the set fills up. */
  lemma AbsorbGenuine(prev: Option<AssemblySet>, f: Fragment, now: nat, cipher: Option<Cipher>, lead: Fragment, s: u32,
                      data: seq<byte>)
    requires GenuinePrev(prev, s, data) && Genuine(f, s, data)
    requires lead in Gathered(prev, f).Values
    ensures GenuineMap(Gathered(prev, f), s, data)
    ensures var (a, m) := (Absorb(prev, f, now, cipher, lead), Gathered(prev, f));
      if prev.Some? && prev.value.state.Complete? then a == Absorbed(Some(prev.value.(lastReceived := now)), None)
      else if |m| <= FragTotal(data) then a == Absorbed(Some(Filing(prev, f, now)), None) && GenuineSet(m, s, data)
      else a == Absorbed(Some(Filing(prev, f, now).Completed(now)), Some(data)) && |m| == FragTotal(data) + 1
  {
    var m := Gathered(prev, f);
    assert f.fragId in m;
    assert GenuineMap(m, s, data);
    if Fills(prev, f) {
      GenuineFull(m, s, data);
      assert Genuine(lead, s, data);
      assert forall id :: id in m ==> m[id].fragTotal == lead.fragTotal;
      assert Transformed(m, s, cipher, lead) == Some(data);
    }
  }

  // ----- The protocol -----

  /**
   * `fragments` and `acks` are all the packets ever sent; `accepted` records the bytes of every
   * `send_data` that was not refused and `outputs` everything the receiver has output. A receiver
   * that panicked takes no more steps.
   */
  datatype State = State(
    sets: Sets,
    nextSeqId: nat,
    pending: Pending,
    outputs: seq<Message>,
    panicked: bool,
    fragments: set<Fragment>,
    acks: set<(u32, Bitmap)>,
    accepted: map<u32, seq<byte>>)

  datatype Step =
    | Send(data: seq<byte>, options: SendOptions, now: nat)
    | SenderTick(now: nat)
    | DeliverFragment(f: Fragment, now: nat, cipher: Option<Cipher>, lead: Fragment)
    | DeliverAck(s: u32, ack: Bitmap, now: nat)
    | ReceiverTick(now: nat, generated: seq<(u32, Bitmap)>)
    | ReceiverPanic(now: nat)

  const INITIAL := State(map[], 0, map[], [], false, {}, {}, map[])

  /** Everything a sender tick puts on the network. */
  function Rounds(sets: Sets, now: nat): set<Fragment> {
    set s, f | s in sets && sets[s].Valid() && f in Round(sets, s, now) :: f
  }

  /** Fewer than 2^32 messages are sent: the counter of sequence ids does not overflow. */
  predicate CanSend(st: State) { st.nextSeqId < U32_COUNT - 1 }

  ghost predicate Next(st: State, step: Step, st': State) {
    match step
    case Send(data, options, now) =>
      && CanSend(st)
      && var s: u32 := st.nextSeqId;
         if !Sendable(data) then st' == st.(nextSeqId := st.nextSeqId + 1)
         else st' == st.(nextSeqId := st.nextSeqId + 1,
                         sets := if options.key then st.sets[s := NewSentSet(data, now, options)] else st.sets,
                         fragments := st.fragments + (set f | f in FragmentsOf(data, s, SendFlags(options))),
                         accepted := st.accepted[s := data])
    case SenderTick(now) =>
      st' == st.(sets := TickSets(st.sets, now), fragments := st.fragments + Rounds(st.sets, now))
    case DeliverFragment(f, now, cipher, lead) =>
      && !st.panicked && f in st.fragments
      && lead in Gathered(Lookup(st.pending, f.seqId), f).Values
      && st' == st.(pending := PushPending(st.pending, f, now, cipher, lead),
                    outputs := st.outputs + PushOutput(st.pending, f, now, cipher, lead))
    case DeliverAck(s, ack, now) =>
      && (s, ack) in st.acks
      && st' == if s in st.sets then st.(sets := st.sets[s := st.sets[s].AckReceived(ack, now)]) else st
    case ReceiverTick(now, generated) =>
      && !st.panicked
      && AcksOf(generated, st.pending, now, st.pending.Keys)
      && st' == st.(pending := TickPending(st.pending, now), acks := st.acks + (set a | a in generated))
    case ReceiverPanic(now) =>
      && !st.panicked
      && (exists s :: s in st.pending && st.pending[s].Due(now) && st.pending[s].MayPanic())
      && st' == st.(panicked := true)
  }

  datatype Run = Run(states: seq<State>, steps: seq<Step>)
  {
    ghost predicate Valid() {
      && |states| == |steps| + 1
      && states[0] == INITIAL
      && forall k :: 0 <= k < |steps| ==> StepsTo(k)
    }

    ghost predicate StepsTo(k: nat)
      requires k < |steps| < |states|
    {
      Next(states[k], steps[k], states[k + 1])
    }
  }

  // ----- The invariant -----

  /** The last fragment of such a message has no bit in the message's bitmaps. */
  predicate Gap(fragTotal: u8) { fragTotal > 0 && fragTotal % 8 == 0 }

  ghost predicate SenderInv(st: State) {
    && (forall s :: s in st.accepted ==> s < st.nextSeqId && Sendable(st.accepted[s]))
    && (forall s :: s in st.sets ==> s in st.accepted && st.sets[s].Valid() && st.sets[s].data == st.accepted[s])
  }

  ghost predicate NetworkInv(st: State) {
    forall f :: f in st.fragments ==> f.seqId in st.accepted && Genuine(f, f.seqId, st.accepted[f.seqId])
  }

  ghost predicate ReceiverInv(st: State) {
    && (forall s :: s in st.pending ==> s in st.accepted && SetInv(st.pending[s], s, st.accepted[s], st.outputs))
    && (forall n :: 0 <= n < |st.outputs| ==>
       st.outputs[n].0 in st.accepted && st.outputs[n].1 == st.accepted[st.outputs[n].0])
  }

  ghost predicate SetInv(set_: AssemblySet, s: u32, data: seq<byte>, outputs: seq<Message>) {
    match set_.state
    case Incomplete(m) => GenuineSet(m, s, data)
    case Complete(_, fragTotal) => Sendable(data) && fragTotal == FragTotal(data) && (s, data) in outputs
  }

  /** An acknowledgement that misses nothing tells the truth, but for the gap. */
  ghost predicate Truthful(ack: Bitmap, s: u32, data: seq<byte>, outputs: seq<Message>) {
    Sendable(data) && !Gap(FragTotal(data)) && MissingIds(ack, FragTotal(data)) == [] ==> (s, data) in outputs
  }

  ghost predicate AckInv(st: State) {
    && (forall a :: a in st.acks ==> a.0 in st.accepted && Truthful(a.1, a.0, st.accepted[a.0], st.outputs))
    && (forall s :: s in st.sets ==> s in st.accepted && TrackInv(st.sets[s], s, st.accepted[s], st.outputs))
  }

  ghost predicate TrackInv(set_: SentSet, s: u32, data: seq<byte>, outputs: seq<Message>) {
    && (set_.lastReceivedAck.Some? ==> Truthful(set_.lastReceivedAck.value.ack, s, data, outputs))
    && (set_.completeSince.Some? && Sendable(data) && !Gap(FragTotal(data)) ==> (s, data) in outputs)
  }

  ghost predicate Inv(st: State) {
    SenderInv(st) && NetworkInv(st) && ReceiverInv(st) && AckInv(st)
  }

  /** More outputs and more accepted messages falsify nothing. */
  ghost predicate Grows(st: State, st': State) {
    && (forall s :: s in st.accepted ==> s in st'.accepted && st'.accepted[s] == st.accepted[s])
    && (forall m :: m in st.outputs ==> m in st'.outputs)
  }

  lemma AckInvGrows(st: State, st': State)
    requires AckInv(st) && Grows(st, st') && st'.sets == st.sets && st'.acks == st.acks
    ensures AckInv(st')
  {}

  lemma SetsInvGrow(st: State, st': State, s: u32)
    requires ReceiverInv(st) && Grows(st, st') && s in st.pending && s in st'.pending && st'.pending[s] == st.pending[s]
    ensures s in st'.accepted && SetInv(st'.pending[s], s, st'.accepted[s], st'.outputs)
  {
    assert SetInv(st.pending[s], s, st.accepted[s], st.outputs);
  }

  lemma SendKeepsInv(st: State, step: Step, st': State)
    requires Inv(st) && step.Send? && Next(st, step, st')
    ensures Inv(st')
  {
    hide Sendable;
    hide ReceiverInv;
    hide AckInv;
    if Sendable(step.data) {
      SendKeepsSenders(st, step, st');
      SendGrows(st, step, st');
    } else {
      NothingSent(st, st');
    }
  }

  lemma NothingSent(st: State, st': State)
    requires Inv(st) && st' == st.(nextSeqId := st.nextSeqId + 1)
    ensures Inv(st')
  {}

  lemma SendKeepsSenders(st: State, step: Step, st': State)
    requires SenderInv(st) && NetworkInv(st) && step.Send? && Sendable(step.data) && Next(st, step, st')
    ensures SenderInv(st') && NetworkInv(st')
  {
    hide FragmentsOf;
    SentFragmentsGenuine(step.data, st.nextSeqId, step.options);
  }

  lemma SendGrows(st: State, step: Step, st': State)
    requires Inv(st) && step.Send? && Sendable(step.data) && Next(st, step, st')
    ensures ReceiverInv(st') && AckInv(st')
  {
    hide ReceiverInv;
    hide NetworkInv;
    hide TrackInv;
    hide Truthful;
    hide FragmentsOf;
    assert Grows(st, st');
    PendingGrows(st, st');
    AckInvGrows(st, st'.(sets := st.sets));
    NewTrackInv(step.data, step.now, step.options, st.nextSeqId, st'.outputs);
  }

  lemma PendingGrows(st: State, st': State)
    requires ReceiverInv(st) && Grows(st, st') && st'.pending == st.pending && st'.outputs == st.outputs
    ensures ReceiverInv(st')
  {
    hide SetInv;
    forall t | t in st.pending ensures t in st'.accepted && SetInv(st'.pending[t], t, st'.accepted[t], st'.outputs) {
      SetsInvGrow(st, st', t);
    }
  }

  lemma NewTrackInv(data: seq<byte>, now: nat, options: SendOptions, s: u32, outputs: seq<Message>)
    requires Sendable(data)
    ensures TrackInv(NewSentSet(data, now, options), s, data, outputs)
  {}

  /** A repair round does not touch the data, and marks complete only what an acknowledgement says. */
  lemma TickedTrackInv(set_: SentSet, now: nat, s: u32, data: seq<byte>, outputs: seq<Message>)
    requires set_.Valid() && set_.data == data && TrackInv(set_, s, data, outputs)
    ensures set_.Ticked(now).Valid() && set_.Ticked(now).data == data && TrackInv(set_.Ticked(now), s, data, outputs)
  {}

  lemma SenderTickKeepsInv(st: State, step: Step, st': State)
    requires Inv(st) && step.SenderTick? && Next(st, step, st')
    ensures Inv(st')
  {
    RoundsGenuine(st, step);
    forall s | s in st'.sets
      ensures s in st.accepted && st'.sets[s].Valid() && st'.sets[s].data == st.accepted[s]
              && TrackInv(st'.sets[s], s, st.accepted[s], st.outputs)
    {
      TickedTrackInv(st.sets[s], step.now, s, st.accepted[s], st.outputs);
    }
  }

  lemma RoundsGenuine(st: State, step: Step)
    requires SenderInv(st) && step.SenderTick?
    ensures forall f :: f in Rounds(st.sets, step.now) ==>
      f.seqId in st.accepted && Genuine(f, f.seqId, st.accepted[f.seqId])
  {
    forall f | f in Rounds(st.sets, step.now)
      ensures f.seqId in st.accepted && Genuine(f, f.seqId, st.accepted[f.seqId])
    {
      var s :| s in st.sets && f in Round(st.sets, s, step.now);
      ResentGenuine(st.sets[s], s);
    }
  }

  lemma DeliverAckKeepsInv(st: State, step: Step, st': State)
    requires Inv(st) && step.DeliverAck? && Next(st, step, st')
    ensures Inv(st')
  {
    hide NetworkInv;
    hide ReceiverInv;
    hide Truthful;
    if step.s in st.sets {
      assert SenderInv(st');
      assert TrackInv(st'.sets[step.s], step.s, st.accepted[step.s], st.outputs);
      AckKeepsParts(st, st');
    }
  }

  lemma AckKeepsParts(st: State, st': State)
    requires NetworkInv(st) && ReceiverInv(st) && st' == st.(sets := st'.sets)
    ensures NetworkInv(st') && ReceiverInv(st')
  {}

  lemma DeliverFragmentKeepsInv(st: State, step: Step, st': State)
    requires Inv(st) && step.DeliverFragment? && Next(st, step, st')
    ensures Inv(st')
  {
    var s := step.f.seqId;
    var data := st.accepted[s];
    var a := Absorb(Lookup(st.pending, s), step.f, step.now, step.cipher, step.lead);
    AbsorbKeepsSetInv(Lookup(st.pending, s), step.f, step.now, step.cipher, step.lead, s, data, st.outputs);
    assert st'.pending == st.pending[s := a.kept.value];
    assert st'.outputs == if a.output.Some? then st.outputs + [(s, data)] else st.outputs + [];
    Delivered(st, st', s, a.kept.value);
  }

  /** The invariant after one set was replaced by a good one and its message perhaps output. */
  lemma Delivered(st: State, st': State, s: u32, set_: AssemblySet)
    requires Inv(st) && s in st.accepted && SetInv(set_, s, st.accepted[s], st'.outputs)
    requires st' == st.(pending := st.pending[s := set_], outputs := st'.outputs)
    requires st'.outputs == st.outputs || st'.outputs == st.outputs + [(s, st.accepted[s])]
    ensures Inv(st')
  {
    assert Grows(st, st');
    AckInvGrows(st, st');
    forall t | t in st'.pending ensures t in st'.accepted && SetInv(st'.pending[t], t, st'.accepted[t], st'.outputs) {
      if t != s { SetsInvGrow(st, st', t); }
    }
  }

  lemma FilledState(prev: Option<AssemblySet>, f: Fragment, now: nat, fragTotal: u8)
    requires prev.Some? ==> prev.value.state.Incomplete?
    requires |Gathered(prev, f)| == fragTotal + 1
    ensures Filing(prev, f, now).Completed(now).state == Complete(now, fragTotal)
  {
    assert Filing(prev, f, now).state == Incomplete(Gathered(prev, f));
  }

  /** A push keeps the invariant of the set, whose message is output when it completes. */
  lemma AbsorbKeepsSetInv(prev: Option<AssemblySet>, f: Fragment, now: nat, cipher: Option<Cipher>, lead: Fragment,
                          s: u32, data: seq<byte>, outputs: seq<Message>)
    requires prev.Some? ==> SetInv(prev.value, s, data, outputs)
    requires Genuine(f, s, data) && lead in Gathered(prev, f).Values
    ensures var a := Absorb(prev, f, now, cipher, lead);
      && (a.output == None || a.output == Some(data))
      && a.kept.Some?
      && SetInv(a.kept.value, s, data, if a.output.Some? then outputs + [(s, data)] else outputs)
  {
    AbsorbGenuine(prev, f, now, cipher, lead, s, data);
    var m := Gathered(prev, f);
    if prev.Some? && prev.value.state.Complete? {
    } else if |m| <= FragTotal(data) {
      assert Filing(prev, f, now).state == Incomplete(m);
    } else {
      FilledState(prev, f, now, FragTotal(data));
      assert (outputs + [(s, data)])[|outputs|] == (s, data);
    }
  }

  lemma ReceiverTickKeepsInv(st: State, step: Step, st': State)
    requires Inv(st) && step.ReceiverTick? && Next(st, step, st')
    ensures Inv(st')
  {
    hide Truthful;
    hide NetworkInv;
    hide SenderInv;
    hide TickPending;
    hide ReceiverInv;
    hide SetInv;
    TickKeepsReceiver(st, step.now);
    SameReceiver(st.(pending := TickPending(st.pending, step.now)), st');
    forall a | a in step.generated ensures a.0 in st.accepted && Truthful(a.1, a.0, st.accepted[a.0], st.outputs) {
      var i :| 0 <= i < |step.generated| && step.generated[i] == a;
      assert st.pending[a.0].MayAcknowledge(a.1);
      PendingIsGood(st, a.0);
      GeneratedIsTruthful(st.pending[a.0], a.1, a.0, st.accepted[a.0], st.outputs);
    }
    assert SenderInv(st') && NetworkInv(st') by { SameSender(st, st'); }
  }

  lemma PendingIsGood(st: State, s: u32)
    requires ReceiverInv(st) && s in st.pending
    ensures s in st.accepted && SetInv(st.pending[s], s, st.accepted[s], st.outputs)
  {}

  lemma TickKeepsReceiver(st: State, now: nat)
    requires ReceiverInv(st)
    ensures ReceiverInv(st.(pending := TickPending(st.pending, now)))
  {}

  lemma SameReceiver(st: State, st': State)
    requires ReceiverInv(st) && st'.pending == st.pending && st'.outputs == st.outputs && st'.accepted == st.accepted
    ensures ReceiverInv(st')
  {}

  lemma SameSender(st: State, st': State)
    requires SenderInv(st) && NetworkInv(st)
    requires st'.sets == st.sets && st'.nextSeqId == st.nextSeqId
    requires st'.fragments == st.fragments && st'.accepted == st.accepted
    ensures SenderInv(st') && NetworkInv(st')
  {}

  /** The receiver never generates an acknowledgement that misses nothing before the message is output. */
  lemma GeneratedIsTruthful(set_: AssemblySet, ack: Bitmap, s: u32, data: seq<byte>, outputs: seq<Message>)
    requires SetInv(set_, s, data, outputs) && set_.MayAcknowledge(ack)
    ensures Truthful(ack, s, data, outputs)
  {
    if set_.state.Incomplete? {
      var m := set_.state.fragments;
      var id :| id in m && ack == BitmapOf(m.Keys, m[id].fragTotal);
      assert Genuine(m[id], s, data);
      MissingComplementsBitmap(m.Keys, FragTotal(data));
      if !Gap(FragTotal(data)) {
        var lost := SomeIdMissing(m, s, data);
        AbsentBelowAscends(m.Keys, Covered(FragTotal(data)));
        assert lost in AbsentBelow(m.Keys, Covered(FragTotal(data)));
      }
    }
  }

  lemma SomeIdMissing(m: map<u8, Fragment>, s: u32, data: seq<byte>) returns (id: u8)
    requires GenuineSet(m, s, data)
    ensures id <= FragTotal(data) && id !in m
  {
    assert |m.Keys| == |m|;
    if forall i: u8 :: i <= FragTotal(data) ==> i in m.Keys {
      SubsetSize(Below(FragTotal(data) + 1), m.Keys);
      assert false;
    }
    id :| id <= FragTotal(data) && id !in m.Keys;
  }

  lemma NextKeepsInv(st: State, step: Step, st': State)
    requires Inv(st) && Next(st, step, st')
    ensures Inv(st')
  {
    match step
    case Send(_, _, _) => SendKeepsInv(st, step, st');
    case SenderTick(_) => SenderTickKeepsInv(st, step, st');
    case DeliverFragment(_, _, _, _) => DeliverFragmentKeepsInv(st, step, st');
    case DeliverAck(_, _, _) => DeliverAckKeepsInv(st, step, st');
    case ReceiverTick(_, _) => ReceiverTickKeepsInv(st, step, st');
    case ReceiverPanic(_) =>
  }

  lemma {:induction false} RunKeepsInv(r: Run, k: nat)
    requires r.Valid() && k < |r.states|
    ensures Inv(r.states[k])
  {
    if k > 0 {
      RunKeepsInv(r, k - 1);
      assert r.StepsTo(k - 1);
      NextKeepsInv(r.states[k - 1], r.steps[k - 1], r.states[k]);
    }
  }

  // ----- Main results -----

  /**
   * End-to-end integrity: in every run, whatever the network loses, repeats or reorders, everything
   * the receiver outputs for a sequence id is the message that was accepted under that id.
   */
  lemma Integrity(r: Run, k: nat, n: nat)
    requires r.Valid() && k < |r.states| && n < |r.states[k].outputs|
    ensures r.states[k].outputs[n].0 in r.states[k].accepted
    ensures r.states[k].outputs[n].1 == r.states[k].accepted[r.states[k].outputs[n].0]
  {
    RunKeepsInv(r, k);
  }

  /** What the sender reports for `s`: `None` for an id it does not track. */
  function Reported(st: State, s: u32): Option<bool> {
    ReportOf(st.sets, s)
  }

  /**
   * Acknowledgement soundness: unless the message falls in the gap, a sender that reports it received
   * is right, however acknowledgements were repeated and reordered.
   */
  lemma ReceivedMeansOutput(r: Run, k: nat, s: u32)
    requires r.Valid() && k < |r.states| && Reported(r.states[k], s) == Some(true)
    ensures s in r.states[k].accepted && Sendable(r.states[k].accepted[s])
    ensures !Gap(FragTotal(r.states[k].accepted[s])) ==> (s, r.states[k].accepted[s]) in r.states[k].outputs
  {
    RunKeepsInv(r, k);
  }

  lemma ReportKept(st: State, step: Step, st': State, s: u32)
    requires Next(st, step, st') && s < st.nextSeqId
    requires s in st.sets ==> st.sets[s].completeSince.Some?
    ensures s < st'.nextSeqId && (s in st'.sets ==> st'.sets[s].completeSince.Some?)
  {}

  /** Once reported received, a message stays so until the sender forgets it, and is never tracked again. */
  lemma {:induction false} ReceivedStays(r: Run, i: nat, j: nat, s: u32)
    requires r.Valid() && i <= j < |r.states| && Reported(r.states[i], s) == Some(true)
    ensures Reported(r.states[j], s) != Some(false)
    ensures s < r.states[j].nextSeqId
    decreases j
  {
    if i < j {
      ReceivedStays(r, i, j - 1, s);
      assert r.StepsTo(j - 1);
      ReportKept(r.states[j - 1], r.steps[j - 1], r.states[j], s);
    } else {
      RunKeepsInv(r, i);
    }
  }

  /**
   * An acknowledgement of an incomplete set panics exactly when the set holds the last fragment of a message
   * in the gap.
   */
  lemma PanicsExactlyInGap(m: map<u8, Fragment>, s: u32, data: seq<byte>)
    requires GenuineSet(m, s, data)
    ensures Fits(m.Keys, FragTotal(data)) <==> !(Gap(FragTotal(data)) && FragTotal(data) in m)
  {
    forall id | id in m ensures id <= FragTotal(data) { assert Genuine(m[id], s, data); }
  }
}
