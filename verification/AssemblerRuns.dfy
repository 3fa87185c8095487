/** What every run of the receiver keeps, whatever fragments arrive and whenever it ticks. */
module AssemblerRuns {
  import opened Prelude
  import opened Fragmentation
  import opened Assembler

  /**
   * `lead` is the fragment the hash map yields first, should the push complete a message; `cipher` opens
   * sealed messages once there is a shared secret.
   */
  datatype Step = Pushed(f: Fragment, now: nat, cipher: Option<Cipher>, lead: Fragment) | Ticked(now: nat)

  function CountOf(messages: seq<Message>, s: u32): nat {
    if messages == [] then 0 else CountOf(messages[1..], s) + (if messages[0].0 == s then 1 else 0)
  }

  /**
   * A receiver over time, starting empty: `states[k]` steps to `states[k + 1]` by `steps[k]`, which
   * appends `outputs[k]` to the output queue.
   */
  datatype Run = Run(states: seq<Pending>, steps: seq<Step>, outputs: seq<seq<Message>>)
  {
    ghost predicate Valid() {
      && |states| == |steps| + 1 && |outputs| == |steps|
      && states[0] == map[]
      && forall k :: 0 <= k < |steps| ==> Steps(k)
    }

    ghost predicate Steps(k: nat)
      requires k < |steps| == |outputs| < |states|
    {
      match steps[k]
      case Pushed(f, now, cipher, lead) =>
        && WellFormed(f)
        && lead in Gathered(Lookup(states[k], f.seqId), f).Values
        && states[k + 1] == PushPending(states[k], f, now, cipher, lead)
        && outputs[k] == PushOutput(states[k], f, now, cipher, lead)
      case Ticked(now) => states[k + 1] == TickPending(states[k], now) && outputs[k] == []
    }

    /** Step `k` acknowledges `s`. */
    predicate Acks(s: u32, k: nat)
      requires k < |steps| < |states|
    {
      steps[k].Ticked? && s in states[k] && states[k][s].Due(steps[k].now)
    }

    /** Step `k` files a fragment of `s` in a set that is not complete yet. */
    predicate Accepts(s: u32, k: nat)
      requires k < |steps| < |states|
    {
      steps[k].Pushed? && steps[k].f.seqId == s && (s in states[k] ==> states[k][s].state.Incomplete?)
    }

    /** The number of messages of `s` output by steps `i..j`. */
    function OutputCount(s: u32, i: nat, j: nat): nat
      requires i <= j <= |outputs|
    {
      if i == j then 0 else OutputCount(s, i, j - 1) + CountOf(outputs[j - 1], s)
    }

    function AckCount(s: u32, i: nat, j: nat): nat
      requires i <= j <= |steps| < |states|
    {
      if i == j then 0 else AckCount(s, i, j - 1) + (if Acks(s, j - 1) then 1 else 0)
    }

    function AcceptCount(s: u32, i: nat, j: nat): nat
      requires i <= j <= |steps| < |states|
    {
      if i == j then 0 else AcceptCount(s, i, j - 1) + (if Accepts(s, j - 1) then 1 else 0)
    }

    /** Step `k` removes the complete set of `s`. */
    predicate Forgets(s: u32, k: nat)
      requires k < |steps| < |states|
    {
      steps[k].Ticked? && HasComplete(states[k], s) && states[k][s].IsStale(steps[k].now)
    }

    function ForgetCount(s: u32, i: nat, j: nat): nat
      requires i <= j <= |steps| < |states|
    {
      if i == j then 0 else ForgetCount(s, i, j - 1) + (if Forgets(s, j - 1) then 1 else 0)
    }

    /** The set of `s` is created by step `i` and exists up to state `j`. */
    predicate Lifetime(s: u32, i: nat, j: nat)
      requires j < |states|
    {
      i < j && s !in states[i] && forall k :: i < k <= j ==> s in states[k]
    }
  }

  /** What a step does to one set, as far as delivery and acknowledgements go. */
  predicate Changes(prev: Option<AssemblySet>, next: Option<AssemblySet>, step: Step, s: u32, delivered: nat) {
    if step.Ticked? then
      delivered == 0 && next == if prev.None? || prev.value.IsStale(step.now) then None
        else Some(prev.value.Ticked(step.now))
    else if step.f.seqId != s then delivered == 0 && next == prev
    else if prev.Some? && prev.value.state.Complete? then
      delivered == 0 && next == Some(prev.value.(lastReceived := step.now))
    else
      && delivered == (if next.Some? && next.value.state.Complete? then 1 else 0)
      && (next.Some? ==> next.value.acksSent == 0)
      && (next.Some? ==> next.value.flags == if prev.Some? then prev.value.flags else step.f.flags)
      && (next.Some? && next.value.state.Incomplete? ==>
            next.value.lastSentAck == if prev.Some? then prev.value.lastSentAck else None)
  }

  lemma StepFacts(r: Run, k: nat, s: u32)
    requires r.Valid() && k < |r.steps|
    ensures Changes(Lookup(r.states[k], s), Lookup(r.states[k + 1], s), r.steps[k], s, CountOf(r.outputs[k], s))
  {
    assert r.Steps(k);
    if r.steps[k].Pushed? {
      PushFacts(r.states[k], r.steps[k].f, r.steps[k].now, r.steps[k].cipher, r.steps[k].lead, s);
    }
  }

  lemma PushFacts(pending: Pending, f: Fragment, now: nat, cipher: Option<Cipher>, lead: Fragment, s: u32)
    ensures Changes(Lookup(pending, s), Lookup(PushPending(pending, f, now, cipher, lead), s),
                    Pushed(f, now, cipher, lead), s,
                    CountOf(PushOutput(pending, f, now, cipher, lead), s))
  {
    hide Changes;
    hide Absorb;
    var prev := Lookup(pending, f.seqId);
    var a := Absorb(prev, f, now, cipher, lead);
    OutputCounted(a, f.seqId, s);
    if s == f.seqId {
      AbsorbChanges(prev, f, now, cipher, lead);
      assert Lookup(PushPending(pending, f, now, cipher, lead), s) == a.kept;
    } else {
      OtherUnchanged(Lookup(pending, s), Pushed(f, now, cipher, lead), s);
    }
  }

  lemma OutputCounted(a: Absorbed, seqId: u32, s: u32)
    ensures CountOf(if a.output.None? then [] else [(seqId, a.output.value)], s)
      == (if a.output.Some? && s == seqId then 1 else 0)
  {
    if a.output.Some? { assert [(seqId, a.output.value)][1..] == []; }
  }

  lemma OtherUnchanged(prev: Option<AssemblySet>, step: Step, s: u32)
    requires step.Pushed? && step.f.seqId != s
    ensures Changes(prev, prev, step, s, 0)
  {}

  lemma AbsorbChanges(prev: Option<AssemblySet>, f: Fragment, now: nat, cipher: Option<Cipher>, lead: Fragment)
    ensures var a := Absorb(prev, f, now, cipher, lead);
      Changes(prev, a.kept, Pushed(f, now, cipher, lead), f.seqId, if a.output.Some? then 1 else 0)
  {
    hide Transformed;
    hide IsKey;
    hide Gathered;
  }

  /** Every reachable state files fragments under their own ids and has no empty set. */
  lemma {:induction false} ReachableValid(r: Run, k: nat)
    requires r.Valid() && k < |r.states|
    ensures ValidPending(r.states[k])
  {
    if k > 0 {
      ReachableValid(r, k - 1);
      assert r.Steps(k - 1);
      if r.steps[k - 1].Pushed? {
        PushKeepsValid(r.states[k - 1], r.steps[k - 1].f, r.steps[k - 1].now, r.steps[k - 1].cipher,
                       r.steps[k - 1].lead);
      }
    }
  }

  lemma PushKeepsValid(pending: Pending, f: Fragment, now: nat, cipher: Option<Cipher>, lead: Fragment)
    requires ValidPending(pending) && WellFormed(f)
    ensures ValidPending(PushPending(pending, f, now, cipher, lead))
  {
    StoreKeepsValid(pending, f, Filing(Lookup(pending, f.seqId), f, now));
  }

  /**
   * The panics of the push path are out of reach: in every reachable state, whatever well-formed
   * fragment arrives, if it fills its set and the totals agree then, however the hash map orders the
   * set's fragments, joining them finds every slot used once and the right number in slot 0.
   */
  lemma PushNeverPanics(r: Run, k: nat, f: Fragment, lead: Fragment, values: seq<Fragment>)
    requires r.Valid() && k < |r.states| && WellFormed(f)
    requires Fills(Lookup(r.states[k], f.seqId), f)
    requires var m := Gathered(Lookup(r.states[k], f.seqId), f);
             lead in m.Values && ById(values) == m && |values| == |m| && DistinctIds(values)
             && forall id :: id in m ==> m[id].fragTotal == lead.fragTotal
    ensures Placeable(values)
    ensures 0 in ById(values) && ById(values)[0].fragTotal + 1 == |values| <= 0x100
  {
    ReachableValid(r, k);
    var prev := Lookup(r.states[k], f.seqId);
    var m := Gathered(prev, f);
    StoreKeepsValid(r.states[k], f, Filing(prev, f, 0));
    assert ValidSet(f.seqId, r.states[k][f.seqId := Filing(prev, f, 0)][f.seqId]);
    assert f.fragId in m;
    AtMost256(m);
    FullSetHasEveryId(m, f.seqId, f, lead);
    NeitherRejectedNorPanics(m, f.seqId, values, lead);
  }

  /**
   * At most one delivery per set: from the creation of a set on, and as long as it exists, its message
   * has been output once if it is complete and not at all if it is not.
   */
  lemma {:induction false} DeliveredOncePerLifetime(r: Run, s: u32, i: nat, j: nat)
    requires r.Valid() && j < |r.states| && r.Lifetime(s, i, j)
    ensures r.OutputCount(s, i, j) == if r.states[j][s].state.Complete? then 1 else 0
    decreases j
  {
    StepFacts(r, j - 1, s);
    if j - 1 != i {
      DeliveredOncePerLifetime(r, s, i, j - 1);
    }
  }

  /** A complete set stays as it completed until a tick at least 20 s after its completion removes it. */
  lemma {:induction false} CompleteSetStays(r: Run, s: u32, i: nat, j: nat)
    requires r.Valid() && i <= j < |r.states|
    requires s in r.states[i] && r.states[i][s].state.Complete?
    ensures (s in r.states[j] && r.states[j][s].state == r.states[i][s].state)
      || exists k :: i <= k < j && RemovesAfter(r.steps[k], r.states[i][s].state.since)
    decreases j
  {
    if i < j {
      CompleteSetStays(r, s, i, j - 1);
      StepFacts(r, j - 1, s);
      if s in r.states[j - 1] && r.states[j - 1][s].state == r.states[i][s].state && s !in r.states[j] {
        assert RemovesAfter(r.steps[j - 1], r.states[i][s].state.since);
      }
    }
  }

  predicate RemovesAfter(step: Step, since: nat) {
    step.Ticked? && step.now >= since + 20 * SECOND
  }

  // ----- Delivery over a whole run -----

  predicate HasComplete(pending: Pending, s: u32) {
    s in pending && pending[s].state.Complete?
  }

  /**
   * Over any run, a message has been output as often as its complete set was forgotten, and once more
   * if it is complete now.
   */
  lemma {:induction false} DeliveriesExactly(r: Run, s: u32, j: nat)
    requires r.Valid() && j < |r.states|
    ensures r.OutputCount(s, 0, j) == r.ForgetCount(s, 0, j) + (if HasComplete(r.states[j], s) then 1 else 0)
  {
    if j > 0 {
      DeliveriesExactly(r, s, j - 1);
      StepFacts(r, j - 1, s);
    }
  }

  /** A delivery leaves a set that completed at that moment. */
  lemma DeliveryCompletes(r: Run, s: u32, i: nat)
    requires r.Valid() && i < |r.steps| && CountOf(r.outputs[i], s) > 0
    ensures HasComplete(r.states[i + 1], s) && r.states[i + 1][s].state.since == r.steps[i].now
  {
    StepFacts(r, i, s);
    assert r.Steps(i);
  }

  /** Between two deliveries of one id a tick comes at least 20 s after the first of them. */
  lemma TwiceNeedsRemoval(r: Run, s: u32, i: nat, j: nat)
    requires r.Valid() && i < j < |r.steps| && CountOf(r.outputs[i], s) > 0 && CountOf(r.outputs[j], s) > 0
    ensures exists k :: i < k < j && RemovesAfter(r.steps[k], r.steps[i].now)
  {
    DeliveryCompletes(r, s, i);
    CompleteSetStays(r, s, i + 1, j);
    StepFacts(r, j, s);
  }

  /** Without such a tick nothing is delivered twice. */
  lemma {:induction false} OnceWithoutRemoval(r: Run, s: u32, i: nat, j: nat)
    requires r.Valid() && i <= j <= |r.steps|
    requires forall l, k :: i <= l < k < j ==> !RemovesAfter(r.steps[k], r.steps[l].now)
    ensures r.OutputCount(s, i, j) <= 1
    decreases j
  {
    if i < j {
      OnceWithoutRemoval(r, s, i, j - 1);
      StepFacts(r, j - 1, s);
      if r.OutputCount(s, i, j - 1) > 0 && CountOf(r.outputs[j - 1], s) > 0 {
        var l := SomeDelivery(r, s, i, j - 1);
        TwiceNeedsRemoval(r, s, l, j - 1);
      }
    }
  }

  lemma {:induction false} SomeDelivery(r: Run, s: u32, i: nat, j: nat) returns (l: nat)
    requires i <= j <= |r.outputs| && r.OutputCount(s, i, j) > 0
    ensures i <= l < j && CountOf(r.outputs[l], s) > 0
    decreases j
  {
    if CountOf(r.outputs[j - 1], s) > 0 { return j - 1; }
    l := SomeDelivery(r, s, i, j - 1);
  }

  /** Every one-fragment message can be delivered twice: its fragment, a tick 20 s later, the fragment again. */
  lemma DeliveredTwice(f: Fragment, cipher: Option<Cipher>) returns (r: Run)
    requires f.fragId == f.fragTotal == 0 && !IsEncrypted(f.flags)
    ensures r.Valid() && |r.steps| == 3
    ensures r.steps[0] == Pushed(f, 0, cipher, f) && r.steps[1] == Ticked(20 * SECOND)
    ensures r.steps[2] == Pushed(f, 20 * SECOND, cipher, f)
    ensures r.outputs == [[(f.seqId, f.data)], [], [(f.seqId, f.data)]]
  {
    var s := f.seqId;
    var m := map[0 := f];
    var done := map[s := NewSet(0, f.flags).(state := Incomplete(m)).Completed(0)];
    var again := map[s := NewSet(20 * SECOND, f.flags).(state := Incomplete(m)).Completed(20 * SECOND)];
    LoneFragment(f, 0, cipher);
    LoneFragment(f, 20 * SECOND, cipher);
    r := Run([map[], done, map[], again],
             [Pushed(f, 0, cipher, f), Ticked(20 * SECOND), Pushed(f, 20 * SECOND, cipher, f)],
             [[(s, f.data)], [], [(s, f.data)]]);
    assert TickPending(done, 20 * SECOND) == map[];
    forall k | 0 <= k < |r.steps| ensures r.Steps(k) {
      assert k == 0 || k == 1 || k == 2;
    }
  }

  /** A message of one fragment is delivered as soon as it arrives. */
  lemma LoneFragment(f: Fragment, now: nat, cipher: Option<Cipher>)
    requires f.fragId == f.fragTotal == 0 && !IsEncrypted(f.flags)
    ensures f in Gathered(Lookup(map[], f.seqId), f).Values
    ensures PushPending(map[], f, now, cipher, f)
      == map[f.seqId := NewSet(now, f.flags).(state := Incomplete(map[0 := f])).Completed(now)]
    ensures PushOutput(map[], f, now, cipher, f) == [(f.seqId, f.data)]
  {
    var m := Gathered(None, f);
    assert m == map[0 := f] && m[0] == f && |m| == 1;
    assert Joined(m, 0) == [] && Joined(m, 1) == [] + f.data == f.data;
  }

  /**
   * The acknowledgement budget of one lifetime: at most two acknowledgements for each fragment
   * accepted before completion, and none for a set that was opened without the key flag.
   */
  lemma {:induction false} AckBudget(r: Run, s: u32, i: nat, j: nat)
    requires r.Valid() && j < |r.states| && r.Lifetime(s, i, j)
    ensures r.AckCount(s, i, j) <= 2 * r.AcceptCount(s, i, j)
    ensures r.AckCount(s, i, j) <= 2 * (r.AcceptCount(s, i, j) - 1) + r.states[j][s].acksSent
    ensures r.states[j][s].acksSent <= 2
    ensures r.states[j][s].flags == r.states[i + 1][s].flags
    ensures !IsKey(r.states[i + 1][s].flags) ==> r.AckCount(s, i, j) == 0
    decreases j
  {
    StepFacts(r, j - 1, s);
    if j - 1 == i {
      assert r.AckCount(s, i, i) == 0 && r.AcceptCount(s, i, i) == 0;
    } else {
      AckBudget(r, s, i, j - 1);
    }
  }

  /** After completion a set is acknowledged as often as its counter says, which is at most twice. */
  lemma {:induction false} AcksAfterCompletion(r: Run, s: u32, i: nat, c: nat, j: nat)
    requires r.Valid() && i < c <= j < |r.states| && r.Lifetime(s, i, j)
    requires r.states[c][s].state.Complete? && (s in r.states[c - 1] ==> r.states[c - 1][s].state.Incomplete?)
    ensures r.states[j][s].state.Complete? && r.AckCount(s, c, j) == r.states[j][s].acksSent <= 2
    decreases j
  {
    StepFacts(r, j - 1, s);
    if c < j {
      AcksAfterCompletion(r, s, i, c, j - 1);
    }
  }

  /** Two acknowledgements of a set that does not complete between them are at least 50 ms apart. */
  lemma AcksApart(r: Run, s: u32, k: nat, l: nat)
    requires r.Valid() && k < l < |r.steps|
    requires forall n :: k <= n <= l ==> s in r.states[n]
    requires r.Acks(s, k) && r.Acks(s, l)
    requires r.states[k][s].state.Incomplete? <==> r.states[l][s].state.Incomplete?
    ensures r.steps[l].now >= r.steps[k].now + 50 * MILLISECOND
  {
    LastAckNotBefore(r, s, k, l);
  }

  lemma {:induction false} LastAckNotBefore(r: Run, s: u32, k: nat, l: nat)
    requires r.Valid() && k < l < |r.states|
    requires forall n :: k <= n <= l ==> s in r.states[n]
    requires r.Acks(s, k)
    ensures r.states[k][s].state.Complete? ==> r.states[l][s].state.Complete?
    ensures (r.states[k][s].state.Incomplete? <==> r.states[l][s].state.Incomplete?)
      ==> r.states[l][s].lastSentAck.Some? && r.states[l][s].lastSentAck.value >= r.steps[k].now
    decreases l
  {
    StepFacts(r, l - 1, s);
    if k < l - 1 {
      LastAckNotBefore(r, s, k, l - 1);
    }
  }
}
