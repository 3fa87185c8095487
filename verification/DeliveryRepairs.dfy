/** Messages of which only repaired fragments arrive: the receiver outputs them but never acknowledges them. */
module DeliveryRepairs {
  import opened Prelude
  import opened AckBitmap
  import opened Fragmentation
  import opened Assembler
  import opened SentData
  import opened Delivery
  import opened AssemblerTimes
  import R = AssemblerRuns

  /** The first fragments of a message carry the key flag exactly when it was sent with it; repaired ones never do. */
  lemma KeyFlags(data: seq<byte>, s: u32, options: SendOptions, set_: SentSet)
    requires Sendable(data) && set_.Valid()
    ensures forall f :: f in FragmentsOf(data, s, SendFlags(options)) ==> (IsKey(f.flags) <==> options.key)
    ensures forall f :: f in Resent(set_, s) ==> !IsKey(f.flags)
  {
    FlagsExactly(options, set_);
    var all := FragmentsOf(set_.data, s, ResendFlags(set_));
    assert forall f :: f in all ==> f.flags == ResendFlags(set_);
    if set_.lastReceivedAck.Some? {
      var ids := MissingIds(set_.lastReceivedAck.value.ack, FragTotal(set_.data));
      forall i | 0 <= i < |ids| ensures !IsKey(Pick(all, ids)[i].flags) {
        assert ids[i] in ids && all[ids[i]] in all;
      }
    }
  }

  /** Nothing is known of message `s`, and nothing will be, as its set was not opened by a key fragment. */
  ghost predicate Unheard(st: State, s: u32) {
    && (s in st.pending ==> !IsKey(st.pending[s].flags))
    && (forall a :: a in st.acks ==> a.0 != s)
    && (s in st.sets ==> st.sets[s].lastReceivedAck == None && st.sets[s].completeSince == None)
  }

  lemma StaysUnheard(st: State, step: Step, st': State, s: u32)
    requires Unheard(st, s) && Next(st, step, st')
    requires step.DeliverFragment? && step.f.seqId == s ==> !IsKey(step.f.flags)
    ensures Unheard(st', s)
  {
    hide IsKey;
    hide Sendable;
    hide Absorb;
    hide MissingIds;
    hide FragmentsOf;
    hide Rounds;
    hide SendFlags;
    match step
    case DeliverFragment(f, now, cipher, lead) => AbsorbFields(Lookup(st.pending, s), f, now, cipher, lead);
    case ReceiverTick(now, generated) =>
      forall a | a in generated ensures a.0 != s {
        var i :| 0 <= i < |generated| && generated[i] == a;
        assert st.pending[a.0].Due(now);
      }
    case _ =>
  }

  /**
   * In every run in which no fragment of a message as first sent arrives, but any number of repaired ones
   * do, the message is never acknowledged and the sender never reports it received.
   */
  lemma {:induction false} RepairsAloneAreNotAcknowledged(r: Run, k: nat, s: u32)
    requires r.Valid() && k < |r.states|
    requires forall j :: 0 <= j < k && r.steps[j].DeliverFragment? && r.steps[j].f.seqId == s ==>
      !IsKey(r.steps[j].f.flags)
    ensures Unheard(r.states[k], s) && Reported(r.states[k], s) != Some(true)
  {
    hide Unheard;
    if k == 0 {
      assert Unheard(INITIAL, s) by { StartUnheard(s); }
    } else {
      RepairsAloneAreNotAcknowledged(r, k - 1, s);
      assert r.StepsTo(k - 1);
      StaysUnheard(r.states[k - 1], r.steps[k - 1], r.states[k], s);
    }
    UnheardUnreported(r.states[k], s);
  }

  lemma StartUnheard(s: u32)
    ensures Unheard(INITIAL, s)
  {}

  lemma UnheardUnreported(st: State, s: u32)
    requires Unheard(st, s)
    ensures Reported(st, s) != Some(true)
  {}

  /** Yet it is output: a key message of one fragment is sent and sent again, and only the repair arrives. */
  lemma OutputUnheard(data: seq<byte>) returns (r: Run)
    requires 0 < |data| <= MAX_FRAGMENT_INNER_SIZE
    ensures r.Valid() && |r.steps| == 3 && Sendable(data)
    ensures r.steps[0] == Send(data, KEY, 0) && r.steps[1] == SenderTick(0)
    ensures r.steps[2].DeliverFragment? && !IsKey(r.steps[2].f.flags)
    ensures r.states[3].outputs == [(0, data)] && Reported(r.states[3], 0) == Some(false)
  {
    hide Next;
    hide Sendable;
    hide PushPending;
    hide TickSets;
    hide SendFlags;
    hide ResendFlags;
    hide Chunk;
    WholeChunk(data);
    var set_ := NewSentSet(data, 0, KEY);
    var f, first := FragmentAt(data, 0, ResendFlags(set_), 0), FragmentAt(data, 0, SendFlags(KEY), 0);
    var sent := State(map[0 := set_], 1, map[], [], false, {first}, {}, map[0 := data]);
    var again := sent.(sets := TickSets(sent.sets, 0), fragments := {first, f});
    var done := again.(pending := PushPending(map[], f, 0, None, f), outputs := [(0, data)]);
    r := Run([INITIAL, sent, again, done], [Send(data, KEY, 0), SenderTick(0), DeliverFragment(f, 0, None, f)]);
    NotKey(set_);
    FirstSend(data, sent);
    SecondSend(data, sent, f);
    assert Next(sent, SenderTick(0), again) by { SentAgain(sent, again, {first}, f); }
    assert Next(again, DeliverFragment(f, 0, None, f), done) by { Arrives(again, done, f); }
    forall k | 0 <= k < |r.steps| ensures r.StepsTo(k) {
      assert k == 0 || k == 1 || k == 2;
    }
  }

  lemma NotKey(set_: SentSet)
    ensures !IsKey(ResendFlags(set_)) && !IsEncrypted(ResendFlags(set_))
  {
    NoFlagsSet();
  }

  lemma SentAgain(sent: State, again: State, before: set<Fragment>, f: Fragment)
    requires sent.fragments == before && Rounds(sent.sets, 0) == {f}
    requires again == sent.(sets := TickSets(sent.sets, 0), fragments := again.fragments)
    requires again.fragments == before + {f}
    ensures Next(sent, SenderTick(0), again)
  {}

  lemma Arrives(again: State, done: State, f: Fragment)
    requires again.pending == map[] && again.outputs == [] && !again.panicked && f in again.fragments
    requires f.seqId == f.fragId == f.fragTotal == 0 && !IsEncrypted(f.flags)
    requires done == again.(pending := PushPending(map[], f, 0, None, f), outputs := [(0, f.data)])
    ensures Next(again, DeliverFragment(f, 0, None, f), done)
  {
    R.LoneFragment(f, 0, None);
  }

  const KEY := SendOptions(0, None, true)

  lemma WholeChunk(data: seq<byte>)
    requires 0 < |data| <= MAX_FRAGMENT_INNER_SIZE
    ensures Sendable(data) && FragTotal(data) == 0 && Chunk(data, 0) == data
  {}

  lemma OneFragment(data: seq<byte>, flags: SetFlags)
    requires Sendable(data) && FragTotal(data) == 0
    ensures FragmentsOf(data, 0, flags) == [FragmentAt(data, 0, flags, 0)]
  {}

  lemma FirstSend(data: seq<byte>, sent: State)
    requires Sendable(data) && FragTotal(data) == 0
    requires sent == State(map[0 := NewSentSet(data, 0, KEY)], 1, map[], [], false,
                           {FragmentAt(data, 0, SendFlags(KEY), 0)}, {}, map[0 := data])
    ensures Next(INITIAL, Send(data, KEY, 0), sent)
  {
    OneFragment(data, SendFlags(KEY));
    var all := FragmentsOf(data, 0, SendFlags(KEY));
    assert (set f | f in all) == {all[0]};
    assert map[][0 := data] == map[0 := data];
    assert map[][0 := NewSentSet(data, 0, KEY)] == map[0 := NewSentSet(data, 0, KEY)];
  }

  lemma SecondSend(data: seq<byte>, sent: State, f: Fragment)
    requires Sendable(data) && FragTotal(data) == 0
    requires sent.sets == map[0 := NewSentSet(data, 0, KEY)]
    requires f == FragmentAt(data, 0, ResendFlags(NewSentSet(data, 0, KEY)), 0)
    ensures Rounds(sent.sets, 0) == {f} && ReportOf(TickSets(sent.sets, 0), 0) == Some(false)
  {
    var set_ := sent.sets[0];
    OneFragment(data, ResendFlags(set_));
    assert Round(sent.sets, 0, 0) == [f];
    assert f in Round(sent.sets, 0, 0);
  }
}
