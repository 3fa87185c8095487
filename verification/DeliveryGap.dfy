/** Which messages a sender's report can be trusted for: all but those whose last fragment has no bit. */
module DeliveryGap {
  import opened Prelude
  import opened AckBitmap
  import opened Fragmentation
  import opened Assembler
  import opened SentData
  import opened Delivery

  /** In state `k` the sender reports `data` received under `s`, and the receiver has not output it. */
  ghost predicate Betrayed(r: Run, k: nat, s: u32, data: seq<byte>) {
    && r.Valid() && k < |r.states|
    && s in r.states[k].accepted && r.states[k].accepted[s] == data
    && Reported(r.states[k], s) == Some(true)
    && (s, data) !in r.states[k].outputs
  }

  /** No run reports `data` received without its having been output. */
  ghost predicate Trustworthy(data: seq<byte>) {
    forall r: Run, k: nat, s: u32 :: !Betrayed(r, k, s, data)
  }

  /**
   * The sender's report is sound for exactly the messages outside the gap: whether a message is safe
   * can be read off its length before it is sent.
   */
  lemma TrustworthyExactlyOutsideGap(data: seq<byte>)
    requires Sendable(data)
    ensures Trustworthy(data) <==> !Gap(FragTotal(data))
  {
    if Gap(FragTotal(data)) {
      var r := BetrayingRun(data);
      assert Betrayed(r, |r.states| - 1, 0, data);
    } else {
      forall r: Run, k: nat, s: u32 ensures !Betrayed(r, k, s, data) {
        if Betrayed(r, k, s, data) { ReceivedMeansOutput(r, k, s); }
      }
    }
  }

  /** Lengths in the gap: those that take 8k + 1 fragments, for some k > 0. */
  lemma GapByLength(data: seq<byte>)
    requires Sendable(data)
    ensures Gap(FragTotal(data)) <==> |data| > MAX_FRAGMENT_INNER_SIZE && FragmentCount(|data|) % 8 == 1
  {}

  const OPTIONS := SendOptions(0, None, true)

  function FirstFragments(data: seq<byte>, n: nat): map<u8, Fragment>
    requires Sendable(data) && n <= 0x100
  {
    if n == 0 then map[] else FirstFragments(data, n - 1)[n - 1 := FragmentAt(data, 0, SendFlags(OPTIONS), n - 1)]
  }

  lemma {:induction false} FirstFragmentsHold(data: seq<byte>, n: nat)
    requires Sendable(data) && n <= 0x100
    ensures FirstFragments(data, n).Keys == Below(n) && |FirstFragments(data, n)| == n
    ensures forall i :: i in FirstFragments(data, n) ==>
      FirstFragments(data, n)[i] == FragmentAt(data, 0, SendFlags(OPTIONS), i)
  {
    if n > 0 { FirstFragmentsHold(data, n - 1); }
    assert |FirstFragments(data, n)| == |FirstFragments(data, n).Keys|;
  }

  function Received(data: seq<byte>, n: nat): Pending
    requires Sendable(data) && n <= 0x100
  {
    if n == 0 then map[] else Holding(FirstFragments(data, n), SendFlags(OPTIONS))
  }

  /** The message was sent and its first `n` fragments have arrived, all at time 0. */
  function PartlyReceived(data: seq<byte>, n: nat): State
    requires Sendable(data) && n <= 0x100
  {
    State(map[0 := NewSentSet(data, 0, OPTIONS)], 1, Received(data, n), [], false,
          set f | f in FragmentsOf(data, 0, SendFlags(OPTIONS)), {}, map[0 := data])
  }

  lemma Extend(r: Run, step: Step, st: State) returns (r': Run)
    requires r.Valid() && Next(r.states[|r.steps|], step, st)
    ensures r'.Valid() && r' == Run(r.states + [st], r.steps + [step])
  {
    r' := Run(r.states + [st], r.steps + [step]);
    forall k | 0 <= k < |r'.steps| ensures r'.StepsTo(k) {
      if k < |r.steps| { assert r.StepsTo(k); }
    }
  }

  function Holding(m: map<u8, Fragment>, flags: SetFlags): Pending {
    map[0 := AssemblySet(Incomplete(m), flags, None, 0, 0)]
  }

  /** A fragment that does not fill its set is just filed. */
  lemma JustFiled(pending: Pending, m: map<u8, Fragment>, f: Fragment, cipher: Option<Cipher>)
    requires pending == (if m == map[] then map[] else Holding(m, f.flags))
    requires f.seqId == 0 && |m[f.fragId := f]| <= f.fragTotal
    ensures f in Gathered(Lookup(pending, 0), f).Values
    ensures PushPending(pending, f, 0, cipher, f) == Holding(m[f.fragId := f], f.flags)
    ensures PushOutput(pending, f, 0, cipher, f) == []
  {
    var prev := Lookup(pending, 0);
    assert Gathered(prev, f) == m[f.fragId := f];
    assert f.fragId in Gathered(prev, f) && Gathered(prev, f)[f.fragId] == f;
    assert Filing(prev, f, 0) == AssemblySet(Incomplete(m[f.fragId := f]), f.flags, None, 0, 0);
  }

  lemma ReceivedNext(data: seq<byte>, n: nat, f: Fragment, cipher: Option<Cipher>)
    requires Sendable(data) && n < FragTotal(data) && f == FragmentAt(data, 0, SendFlags(OPTIONS), n)
    ensures f in Gathered(Lookup(Received(data, n), 0), f).Values
    ensures PushPending(Received(data, n), f, 0, cipher, f) == Received(data, n + 1)
    ensures PushOutput(Received(data, n), f, 0, cipher, f) == []
  {
    hide PushPending;
    hide PushOutput;
    hide Gathered;
    hide Sendable;
    FirstFragmentsHold(data, n);
    FirstFragmentsHold(data, n + 1);
    assert n > 0 ==> 0 in FirstFragments(data, n).Keys;
    assert Received(data, n + 1) == Holding(FirstFragments(data, n)[f.fragId := f], f.flags);
    hide FragmentAt;
    hide FirstFragments;
    JustFiled(Received(data, n), FirstFragments(data, n), f, cipher);
  }

  lemma ArrivalOf(data: seq<byte>, n: nat, f: Fragment)
    requires Sendable(data) && n < FragTotal(data) && f == FragmentAt(data, 0, SendFlags(OPTIONS), n)
    ensures Next(PartlyReceived(data, n), DeliverFragment(f, 0, None, f), PartlyReceived(data, n + 1))
  {
    assert f == FragmentsOf(data, 0, SendFlags(OPTIONS))[n];
    ReceivedNext(data, n, f, None);
  }

  lemma Sending(data: seq<byte>)
    requires Sendable(data)
    ensures Next(INITIAL, Send(data, OPTIONS, 0), PartlyReceived(data, 0))
  {
    hide FragmentsOf;
    assert map[][0 := NewSentSet(data, 0, OPTIONS)] == map[0 := NewSentSet(data, 0, OPTIONS)];
  }

  lemma {:induction false} SomeArrived(data: seq<byte>, n: nat) returns (r: Run)
    requires Sendable(data) && n <= FragTotal(data)
    ensures r.Valid() && r.states[|r.steps|] == PartlyReceived(data, n)
  {
    hide Next;
    hide PartlyReceived;
    hide FragmentAt;
    if n == 0 {
      Sending(data);
      r := Extend(Run([INITIAL], []), Send(data, OPTIONS, 0), PartlyReceived(data, 0));
    } else {
      r := SomeArrived(data, n - 1);
      var f := FragmentAt(data, 0, SendFlags(OPTIONS), n - 1);
      ArrivalOf(data, n - 1, f);
      r := Extend(r, DeliverFragment(f, 0, None, f), PartlyReceived(data, n));
    }
  }

  /** The acknowledgement of all fragments but the last. */
  function ShortAck(data: seq<byte>): Bitmap
    requires Sendable(data)
  {
    BitmapOf(Below(FragTotal(data)), FragTotal(data))
  }

  /** The receiver has acknowledged all fragments but the last; then the sender has been told; then it has ticked. */
  function Acknowledged(data: seq<byte>): State
    requires Sendable(data)
  {
    var st := PartlyReceived(data, FragTotal(data));
    st.(pending := TickPending(st.pending, 1), acks := {(0, ShortAck(data))})
  }

  function Told(data: seq<byte>): State
    requires Sendable(data)
  {
    Acknowledged(data).(sets := map[0 := NewSentSet(data, 0, OPTIONS).AckReceived(ShortAck(data), 1)])
  }

  function Misled(data: seq<byte>): State
    requires Sendable(data)
  {
    Told(data).(sets := TickSets(Told(data).sets, 1), fragments := Told(data).fragments + Rounds(Told(data).sets, 1))
  }

  lemma Acknowledging(data: seq<byte>)
    requires Sendable(data) && Gap(FragTotal(data))
    ensures Next(PartlyReceived(data, FragTotal(data)), ReceiverTick(1, [(0, ShortAck(data))]), Acknowledged(data))
  {
    hide FragmentsOf;
    hide AcksOf;
    hide TickPending;
    hide BitmapOf;
    AckOfAllButLast(data);
    var a := (0, ShortAck(data));
    assert (set b | b in [a]) == {a};
  }

  lemma Telling(data: seq<byte>)
    requires Sendable(data) && Gap(FragTotal(data))
    ensures Next(Acknowledged(data), DeliverAck(0, ShortAck(data), 1), Told(data))
  {
    hide FragmentsOf;
    hide TickPending;
    hide BitmapOf;
    var set_ := NewSentSet(data, 0, OPTIONS);
    assert map[0 := set_][0 := set_.AckReceived(ShortAck(data), 1)] == map[0 := set_.AckReceived(ShortAck(data), 1)];
  }

  lemma Misleading(data: seq<byte>)
    requires Sendable(data) && Gap(FragTotal(data))
    ensures Next(Told(data), SenderTick(1), Misled(data))
    ensures Reported(Misled(data), 0) == Some(true) && Misled(data).outputs == []
    ensures Misled(data).accepted == map[0 := data]
  {
    hide FragmentsOf;
    hide TickPending;
    hide Rounds;
    hide MissingIds;
    LooksComplete(FragTotal(data));
    assert Told(data).sets[0].AllAcked() && Told(data).sets[0].Resends(1);
  }

  /** All fragments but the last arrive; their acknowledgement looks complete to the sender. */
  lemma BetrayingRun(data: seq<byte>) returns (r: Run)
    requires Sendable(data) && Gap(FragTotal(data))
    ensures |r.states| > 0 && Betrayed(r, |r.states| - 1, 0, data)
  {
    hide Next;
    hide PartlyReceived;
    hide Acknowledged;
    hide Told;
    hide Misled;
    r := SomeArrived(data, FragTotal(data));
    Acknowledging(data);
    r := Extend(r, ReceiverTick(1, [(0, ShortAck(data))]), Acknowledged(data));
    Telling(data);
    r := Extend(r, DeliverAck(0, ShortAck(data), 1), Told(data));
    Misleading(data);
    r := Extend(r, SenderTick(1), Misled(data));
  }

  lemma AckOfAllButLast(data: seq<byte>)
    requires Sendable(data) && Gap(FragTotal(data))
    ensures var (n, pending) := (FragTotal(data), Received(data, FragTotal(data)));
      AcksOf([(0, BitmapOf(Below(n), n))], pending, 1, pending.Keys)
  {
    var n := FragTotal(data);
    FirstFragmentsHold(data, n);
    assert IsKey(SendFlags(OPTIONS));
    AckOfHeld(FirstFragments(data, n), SendFlags(OPTIONS), 0);
  }

  /** A set with room for all its bits is acknowledged at the next tick. */
  lemma AckOfHeld(m: map<u8, Fragment>, flags: SetFlags, lead: u8)
    requires IsKey(flags) && lead in m && Fits(m.Keys, m[lead].fragTotal)
    ensures AcksOf([(0, BitmapOf(m.Keys, m[lead].fragTotal))], Holding(m, flags), 1, Holding(m, flags).Keys)
  {
    hide BitmapOf;
    hide Fits;
    hide IsKey;
    hide IsExpire;
    var set_, ack := Holding(m, flags)[0], BitmapOf(m.Keys, m[lead].fragTotal);
    var acks: seq<(u32, Bitmap)> := [(0, ack)];
    assert set_.MayAcknowledge(ack) && set_.Due(1);
    assert acks[0].0 == 0;
  }

  lemma LooksComplete(fragTotal: u8)
    requires Gap(fragTotal)
    ensures MissingIds(BitmapOf(Below(fragTotal), fragTotal), fragTotal) == []
  {
    MissingComplementsBitmap(Below(fragTotal), fragTotal);
    NothingAbsent(fragTotal, fragTotal);
  }

  // ----- The panic of an acknowledgement -----

  /** Step `k` is a tick that panics on the set of message `s`. */
  ghost predicate PanicsOn(r: Run, k: nat, s: u32, data: seq<byte>) {
    && r.Valid() && k < |r.steps| && r.steps[k].ReceiverPanic?
    && s in r.states[k].accepted && r.states[k].accepted[s] == data
    && s in r.states[k].pending && r.states[k].pending[s].Due(r.steps[k].now) && r.states[k].pending[s].MayPanic()
  }

  /** No run panics on the message. */
  ghost predicate PanicFree(data: seq<byte>) {
    forall r: Run, k: nat, s: u32 :: !PanicsOn(r, k, s, data)
  }

  /**
   * In every run, a set may panic exactly when it is incomplete and holds the last fragment of a message in
   * the gap.
   */
  lemma MayPanicExactlyInGap(r: Run, k: nat, s: u32)
    requires r.Valid() && k < |r.states| && s in r.states[k].pending
    ensures s in r.states[k].accepted && Sendable(r.states[k].accepted[s])
    ensures var (set_, total) := (r.states[k].pending[s], FragTotal(r.states[k].accepted[s]));
      set_.MayPanic() <==> set_.state.Incomplete? && Gap(total) && total in set_.state.fragments
  {
    RunKeepsInv(r, k);
    var st := r.states[k];
    var data := st.accepted[s];
    assert SetInv(st.pending[s], s, data, st.outputs);
    if st.pending[s].state.Incomplete? {
      var m := st.pending[s].state.fragments;
      PanicsExactlyInGap(m, s, data);
      assert forall id :: id in m ==> m[id].fragTotal == FragTotal(data) by {
        forall id | id in m ensures m[id].fragTotal == FragTotal(data) { assert Genuine(m[id], s, data); }
      }
      var id :| id in m.Keys;
    }
  }

  /** The message is sent and only its last fragment arrives; the next tick panics. */
  lemma PanickingRun(data: seq<byte>) returns (r: Run)
    requires Sendable(data) && Gap(FragTotal(data))
    ensures |r.steps| > 0 && PanicsOn(r, |r.steps| - 1, 0, data) && r.states[|r.steps|].panicked
  {
    hide Chunk;
    hide Rounds;
    hide FirstFragments;
    var n, flags := FragTotal(data), SendFlags(OPTIONS);
    var f := FragmentAt(data, 0, flags, n);
    assert IsKey(flags);
    r := SomeArrived(data, 0);
    var sent := PartlyReceived(data, 0);
    assert f == FragmentsOf(data, 0, flags)[n];
    JustFiled(map[], map[], f, None);
    var got := sent.(pending := Holding(map[n := f], flags));
    assert map[][n := f] == map[n := f] && sent.outputs + [] == sent.outputs;
    r := Extend(r, DeliverFragment(f, 0, None, f), got);
    assert 0 in got.pending && n in map[n := f] && !Fits(map[n := f].Keys, n);
    r := Extend(r, ReceiverPanic(1), got.(panicked := true));
  }

  /** A message can make the receiver panic exactly when it is in the gap. */
  lemma PanicFreeExactlyOutsideGap(data: seq<byte>)
    requires Sendable(data)
    ensures PanicFree(data) <==> !Gap(FragTotal(data))
  {
    if Gap(FragTotal(data)) {
      var r := PanickingRun(data);
      assert PanicsOn(r, |r.steps| - 1, 0, data);
    } else {
      forall r: Run, k: nat, s: u32 ensures !PanicsOn(r, k, s, data) {
        if PanicsOn(r, k, s, data) { MayPanicExactlyInGap(r, k, s); }
      }
    }
  }

  lemma AcceptedStays(st: State, step: Step, st': State, s: u32)
    requires SenderInv(st) && Next(st, step, st') && s in st.accepted
    ensures s in st'.accepted && st'.accepted[s] == st.accepted[s]
  {
    hide FragmentsOf;
    hide Rounds;
    hide TickSets;
    hide TickPending;
    hide PushPending;
    hide PushOutput;
    hide AcksOf;
  }

  lemma InvParts(st: State)
    requires Inv(st)
    ensures SenderInv(st)
  {}

  /** A receiver that has panicked was sent a message in the gap. */
  lemma {:induction false} PanickedMeansGap(r: Run, k: nat) returns (s: u32)
    requires r.Valid() && k < |r.states| && r.states[k].panicked
    ensures s in r.states[k].accepted && Sendable(r.states[k].accepted[s]) && Gap(FragTotal(r.states[k].accepted[s]))
  {
    hide Inv;
    hide Chunk;
    assert k > 0;
    assert r.StepsTo(k - 1);
    if r.states[k - 1].panicked {
      s := PanickedMeansGap(r, k - 1);
      RunKeepsInv(r, k - 1);
      assert SenderInv(r.states[k - 1]) by { InvParts(r.states[k - 1]); }
      AcceptedStays(r.states[k - 1], r.steps[k - 1], r.states[k], s);
    } else {
      var now := r.steps[k - 1].now;
      s :| s in r.states[k - 1].pending && r.states[k - 1].pending[s].Due(now) && r.states[k - 1].pending[s].MayPanic();
      MayPanicExactlyInGap(r, k - 1, s);
    }
  }
}
