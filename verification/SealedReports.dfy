/** For which encrypted messages the sender's report can be trusted, over every run of one such message. */
module SealedReports {
  import opened Prelude
  import opened AckBitmap
  import opened Fragmentation
  import opened Assembler
  import opened SentData
  import opened Sealed
  import opened SealedRuns
  import opened SealedDelivery
  import R = AssemblerRuns

  // ----- Messages whose sealed bytes fit in one fragment -----

  /** The only fragment of such a message yields it, or nothing as long as there is no secret. */
  lemma ShortPush(c: Sealing, prev: Option<AssemblySet>, f: Fragment, now: nat, cipher: Option<Cipher>, lead: Fragment)
    requires c.Valid() && |c.sealed| <= MAX_FRAGMENT_INNER_SIZE && c.IsKind(f)
    requires prev.Some? ==> prev.value.state.Complete?
    requires lead in Gathered(prev, f).Values && (cipher.Some? ==> Authentic(cipher.value, c.s, c.data, c.sealed))
    ensures var a := Absorb(prev, f, now, cipher, lead);
      && (a.kept.Some? ==> a.kept.value.state.Complete?)
      && (a.kept.Some? && prev.None? ==> a.output == Some(c.data))
  {
    hide Kind;
    KindSeqId(c, f);
    KindTotal(f, c.s, c.data, c.sealed, c.options);
    if prev.None? {
      var m := Gathered(prev, f);
      assert m == map[f.fragId := f] && m[f.fragId] == f && lead == f;
      var opener := if cipher.Some? then cipher.value else Opener(c);
      FullReads(m, c.s, c.data, c.sealed, c.options, opener, f, lead);
      assert |m| == 1 && Fills(prev, f);
      assert Transformed(m, c.s, cipher, lead)
        == (if cipher.None? && IsEncrypted(lead.flags) then None else Some(c.data));
    }
  }

  /** Whatever the receiver has, has acknowledged or has been heard of, is output. */
  ghost predicate ShortInv(c: Sealing, st: State) {
    && (forall s :: s in st.pending ==> st.pending[s].state.Complete?)
    && (st.pending != map[] || st.acks != {} || (st.tracked.Some? && Answered(st.tracked.value)) ==>
       (c.s, c.data) in st.outputs)
  }

  predicate Answered(x: SentSet) { x.lastReceivedAck.Some? || x.completeSince.Some? }

  lemma ShortNext(c: Sealing, st: State, step: Step, st': State)
    requires c.Valid() && |c.sealed| <= MAX_FRAGMENT_INNER_SIZE && Inv(c, st) && ShortInv(c, st)
    requires Next(c, st, step, st')
    ensures ShortInv(c, st')
  {
    hide Kind;
    hide RepairOf;
    match step
    case SenderTick(now) =>
    case DeliverFragment(f, now, cipher, lead) =>
      KindSeqId(c, f);
      var prev := Lookup(st.pending, c.s);
      ShortPush(c, prev, f, now, cipher, lead);
      ShortDelivered(c, st, f, now, cipher, lead);
    case DeliverAck(_, _) =>
    case ReceiverTick(now, generated) =>
      if generated != [] { assert generated[0].0 in st.pending; }
      assert generated == [] ==> Acks(generated) == {};
    case ReceiverPanic(_) =>
  }

  lemma ShortDelivered(c: Sealing, st: State, f: Fragment, now: nat, cipher: Option<Cipher>, lead: Fragment)
    requires PendingInv(c, st.pending) && ShortInv(c, st) && f.seqId == c.s
    requires var (prev, a) := (Lookup(st.pending, c.s), Absorb(Lookup(st.pending, c.s), f, now, cipher, lead));
      (a.kept.Some? ==> a.kept.value.state.Complete?) && (a.kept.Some? && prev.None? ==> a.output == Some(c.data))
    ensures ShortInv(c, st.(pending := PushPending(st.pending, f, now, cipher, lead),
                            outputs := st.outputs + PushOutput(st.pending, f, now, cipher, lead)))
  {
    hide Absorb;
    var a := Absorb(Lookup(st.pending, c.s), f, now, cipher, lead);
    if a.output == Some(c.data) { assert (c.s, c.data) in st.outputs + [(c.s, c.data)]; }
    if a.kept.None? { assert forall s :: s in st.pending ==> s == c.s; }
  }

  lemma {:induction false} RunKeepsShort(r: Run, k: nat)
    requires r.Valid() && |r.c.sealed| <= MAX_FRAGMENT_INNER_SIZE && k < |r.states|
    ensures ShortInv(r.c, r.states[k])
  {
    hide ShortInv;
    hide Inv;
    if k > 0 {
      RunKeepsShort(r, k - 1);
      RunKeepsInv(r, k - 1);
      assert r.StepsTo(k - 1);
      ShortNext(r.c, r.states[k - 1], r.steps[k - 1], r.states[k]);
    } else {
      ShortStart(r.c);
    }
  }

  lemma ShortStart(c: Sealing)
    requires c.Valid()
    ensures ShortInv(c, Start(c))
  {}

  // ----- The sender's report -----

  /** The sender reports the message received, and the receiver has not output it. */
  predicate Misreports(c: Sealing, st: State) {
    st.tracked.Some? && st.tracked.value.completeSince.Some? && (c.s, c.data) !in st.outputs
  }

  /** In no run of the message is the report wrong. */
  ghost predicate ReportTrustworthy(data: seq<byte>, sealed: seq<byte>) {
    forall r: Run, k: nat :: r.Valid() && r.Of(data, sealed) && k < |r.states| ==> !Misreports(r.c, r.states[k])
  }

  /** The receiver acknowledges, the sender hears of it and ticks. */
  lemma Answering(c: Sealing, r: Run, pending: Pending, outputs: seq<Message>, ack: Bitmap) returns (r': Run)
    requires c.Valid() && Sendable(c.data) && c.options == OPTIONS && r.Valid() && r.c == c
    requires r.states[|r.steps|] == AfterRepair(c, pending, outputs) && (c.s, c.data) !in outputs
    requires AcksOf([(c.s, ack)], pending, 1, pending.Keys) && MissingIds(ack, FragTotal(c.data)) == []
    ensures r'.Valid() && r'.c == c && Misreports(c, r'.states[|r'.steps|])
  {
    hide FragmentsOf;
    hide AcksOf;
    hide TickPending;
    hide MissingIds;
    var st := r.states[|r.steps|];
    var acked := st.(pending := TickPending(pending, 1), acks := {ack});
    assert st.acks + Acks([(c.s, ack)]) == {ack} by { OneAck(c.s, ack); }
    r' := Extend(r, ReceiverTick(1, [(c.s, ack)]), acked);
    var told := acked.(tracked := Some(Tracked(c).AckReceived(ack, 1)));
    r' := Extend(r', DeliverAck(ack, 1), told);
    assert told.tracked.value.AllAcked() && told.tracked.value.Resends(1) && !told.tracked.value.Dropped(1);
    r' := Extend(r', SenderTick(1), AfterSenderTick(c, told, 1));
  }

  lemma OneAck(s: u32, ack: Bitmap)
    ensures Acks([(s, ack)]) == {ack}
  {
    assert (s, ack) in [(s, ack)];
  }

  /** Where sealing takes one more fragment, the acknowledgement of all but the last looks complete. */
  lemma CrossingMisreport(data: seq<byte>, sealed: seq<byte>) returns (r: Run)
    requires Example(data, sealed).Valid() && data != [] && CrossesFragment(|data|)
    ensures r.Valid() && r.Of(data, sealed) && Misreports(r.c, r.states[|r.steps|])
  {
    hide AfterRepair;
    hide Firsts;
    hide Holding;
    hide AcksOf;
    hide BitmapOf;
    hide MissingIds;
    hide Misreports;
    var c, n := Example(data, sealed), FragTotal(sealed);
    CrossingTotal(data, sealed);
    r := FirstsArrive(data, sealed, n);
    ShortAcked(c);
    OneFewerMissesNothing(n);
    hide FragTotal;
    hide Sendable;
    r := Answering(c, r, Holding(c, Firsts(c, n)), [], BitmapOf(Below(n), n));
  }

  lemma CrossingTotal(data: seq<byte>, sealed: seq<byte>)
    requires Example(data, sealed).Valid() && data != [] && CrossesFragment(|data|)
    ensures Sendable(data) && FragTotal(sealed) == FragTotal(data) + 1
  {
    CrossingCounts(|data|);
  }

  lemma ShortAcked(c: Sealing)
    requires c.Valid() && c.options == OPTIONS && FragTotal(c.sealed) > 0
    ensures var n := FragTotal(c.sealed);
      AcksOf([(c.s, BitmapOf(Below(n), n))], Holding(c, Firsts(c, n)), 1, Holding(c, Firsts(c, n)).Keys)
  {
    hide BitmapOf;
    hide Chunk;
    var n := FragTotal(c.sealed);
    var m, pending := Firsts(c, n), Holding(c, Firsts(c, n));
    FirstsHold(c, n);
    assert 0 in m && m[0].fragTotal == n && Fits(m.Keys, n);
    assert pending[c.s].MayAcknowledge(BitmapOf(Below(n), n));
    assert IsKey(SealedFlags(c.options));
    var acks := [(c.s, BitmapOf(Below(n), n))];
    assert acks[0].0 == c.s;
  }

  // ----- A misread message is reported too -----

  function Flatten(outputs: seq<seq<Message>>): seq<Message> {
    if outputs == [] then [] else Flatten(outputs[..|outputs| - 1]) + outputs[|outputs| - 1]
  }

  lemma {:induction false} FlattenQuiet(outputs: seq<seq<Message>>, n: nat)
    requires n <= |outputs| && forall k :: 0 <= k < n ==> outputs[k] == []
    ensures Flatten(outputs[..n]) == []
  {
    if n > 0 {
      FlattenQuiet(outputs, n - 1);
      assert outputs[..n][..n - 1] == outputs[..n - 1];
    }
  }

  /** The pushes of a receiver's run happen here too, once everything has been sent. */
  lemma {:induction false} Lifted(data: seq<byte>, sealed: seq<byte>, run: R.Run, n: nat) returns (r: Run)
    requires Example(data, sealed).Valid() && data != [] && Fed(run, 0, data, sealed, OPTIONS) && n <= |run.steps|
    requires forall k :: 0 <= k < |run.steps| ==> run.steps[k].Pushed? && run.steps[k].f.seqId == 0
    ensures Sendable(data) && r.Valid() && r.c == Example(data, sealed)
    ensures r.states[|r.steps|] == AfterRepair(r.c, run.states[n], Flatten(run.outputs[..n]))
  {
    hide FragmentsOf;
    hide Kind;
    hide PushPending;
    hide PushOutput;
    var c := Example(data, sealed);
    if n == 0 {
      r := RepairedAtOnce(data, sealed);
    } else {
      r := Lifted(data, sealed, run, n - 1);
      var step := run.steps[n - 1];
      assert run.Steps(n - 1) && Arrives(step, 0, data, sealed, OPTIONS);
      FedKind(run, 0, data, sealed, OPTIONS, n - 1);
      KindArrives(c, step.f);
      assert run.outputs[..n][..n - 1] == run.outputs[..n - 1];
      r := Extend(r, DeliverFragment(step.f, step.now, step.cipher, step.lead),
                  AfterRepair(c, run.states[n], Flatten(run.outputs[..n])));
    }
  }

  /** Where sealing takes no more fragments but several, wrong bytes are output and acknowledged as the message. */
  lemma MisreadMisreport(data: seq<byte>, sealed: seq<byte>) returns (r: Run)
    requires Example(data, sealed).Valid() && |sealed| > MAX_FRAGMENT_INNER_SIZE && !CrossesFragment(|data|)
    ensures r.Valid() && r.Of(data, sealed) && Misreports(r.c, r.states[|r.steps|])
  {
    hide Fed;
    hide AfterRepair;
    hide MissingIds;
    hide AcksOf;
    hide Misreports;
    hide Misread;
    var c := Example(data, sealed);
    SizesFit(data, sealed);
    var run, k := MisreadingRun(0, data, sealed, OPTIONS);
    FedPushes(run, 0, data, sealed, OPTIONS, k);
    r := Lifted(data, sealed, run, k + 1);
    FlattenQuiet(run.outputs, k);
    assert run.outputs[..k + 1][..k] == run.outputs[..k] && run.outputs[..k + 1][k] == run.outputs[k];
    var outputs := Flatten(run.outputs[..k + 1]);
    assert outputs == run.outputs[k];
    MisreadAcked(data);
    CompleteMissesNothing(FragTotal(data));
    r := Answering(c, r, Misread(0, data, OPTIONS), outputs, CreateComplete(FragTotal(data)));
  }

  lemma FedPushes(run: R.Run, s: u32, data: seq<byte>, sealed: seq<byte>, options: SendOptions, k: nat)
    requires Fed(run, s, data, sealed, options) && k + 1 == |run.steps| && Completes(run, k, s) && Quiet(run, k, s)
    ensures run.Valid() && forall j :: 0 <= j < |run.steps| ==> run.steps[j].Pushed? && run.steps[j].f.seqId == s
  {}

  lemma MisreadAcked(data: seq<byte>)
    requires Sendable(data)
    ensures var pending := Misread(0, data, OPTIONS);
      AcksOf([(0, CreateComplete(FragTotal(data)))], pending, 1, pending.Keys)
  {
    assert IsKey(SealedFlags(OPTIONS));
    var acks: seq<(u32, Bitmap)> := [(0, CreateComplete(FragTotal(data)))];
    assert acks[0].0 == 0;
  }

  // ----- Main results -----

  /**
   * The sender's report of an encrypted message can be trusted in every run exactly when the sealed
   * message fits in one fragment.
   */
  lemma ReportTrustworthyExactly(data: seq<byte>, sealed: seq<byte>)
    requires Sendable(sealed) && |sealed| == |data| + TAG_SIZE
    ensures ReportTrustworthy(data, sealed) <==> |data| + TAG_SIZE <= MAX_FRAGMENT_INNER_SIZE
  {
    if |sealed| <= MAX_FRAGMENT_INNER_SIZE {
      forall r: Run, k: nat | r.Valid() && r.Of(data, sealed) && k < |r.states| ensures !Misreports(r.c, r.states[k]) {
        RunKeepsShort(r, k);
      }
    } else {
      var r: Run;
      if CrossesFragment(|data|) { r := CrossingMisreport(data, sealed); } else { r := MisreadMisreport(data, sealed); }
      assert r.Of(data, sealed) && |r.steps| < |r.states|;
    }
  }
}
