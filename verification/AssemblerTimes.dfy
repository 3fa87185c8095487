/**
 * What a fragment set holds, when it goes and when it is acknowledged, read off the steps of a run: the
 * fragments pushed and the times of pushes and ticks.
 */
module AssemblerTimes {
  import opened Prelude
  import opened Fragmentation
  import opened Assembler
  import opened AssemblerRuns

  // ----- Read off the steps -----

  predicate Pushes(step: Step, s: u32) { step.Pushed? && step.f.seqId == s }

  /** The time of the last push of a fragment of `s` before state `k`. */
  function LastPush(steps: seq<Step>, s: u32, k: nat): nat
    requires k <= |steps|
  {
    if k == 0 then 0 else if Pushes(steps[k - 1], s) then steps[k - 1].now else LastPush(steps, s, k - 1)
  }

  /** The fragments of `s` pushed by the steps `i..k`, the last one of each id. */
  function Arrived(steps: seq<Step>, s: u32, i: nat, k: nat): map<u8, Fragment>
    requires i <= k <= |steps|
  {
    if i == k then map[]
    else if Pushes(steps[k - 1], s) then Arrived(steps, s, i, k - 1)[steps[k - 1].f.fragId := steps[k - 1].f]
    else Arrived(steps, s, i, k - 1)
  }

  /** How long an incomplete set waits for another fragment, by the flags of its first one. */
  function Patience(flags: SetFlags): nat {
    if !IsKey(flags) then 1_000_000_000
    else if !IsExpire(flags) then 5_000_000_000
    else 50_000_000_000
  }

  /** The time of the last acknowledgement of `s` by the steps `i..k`. */
  function LastAck(r: Run, s: u32, i: nat, k: nat): Option<nat>
    requires k <= |r.steps| < |r.states|
    decreases k
  {
    if k <= i then None else if r.Acks(s, k - 1) then Some(r.steps[k - 1].now) else LastAck(r, s, i, k - 1)
  }

  // ----- One step -----

  /** What a push makes of a set that it keeps: times, flags, counters and the fragments of an incomplete set. */
  predicate FieldsAfter(prev: Option<AssemblySet>, next: AssemblySet, f: Fragment, now: nat) {
    && next.lastReceived == now
    && next.flags == (if prev.Some? then prev.value.flags else f.flags)
    && if prev.Some? && prev.value.state.Complete? then next == prev.value.(lastReceived := now)
       else
         && next.acksSent == 0
         && if next.state.Complete? then next.lastSentAck == None
            else
              && next.state.fragments == Gathered(prev, f)
              && next.lastSentAck == if prev.Some? then prev.value.lastSentAck else None
  }

  lemma AbsorbFields(prev: Option<AssemblySet>, f: Fragment, now: nat, cipher: Option<Cipher>, lead: Fragment)
    ensures var a := Absorb(prev, f, now, cipher, lead); a.kept.Some? ==> FieldsAfter(prev, a.kept.value, f, now)
  {
    hide Transformed;
    hide IsKey;
    hide Gathered;
  }

  lemma PushedNext(r: Run, k: nat, s: u32)
    requires r.Valid() && k < |r.steps| && r.steps[k].Pushed?
    ensures r.steps[k].f.seqId != s ==> Lookup(r.states[k + 1], s) == Lookup(r.states[k], s)
    ensures r.steps[k].f.seqId == s && s in r.states[k + 1] ==>
      FieldsAfter(Lookup(r.states[k], s), r.states[k + 1][s], r.steps[k].f, r.steps[k].now)
  {
    hide Absorb;
    hide FieldsAfter;
    assert r.Steps(k);
    AbsorbFields(Lookup(r.states[k], s), r.steps[k].f, r.steps[k].now, r.steps[k].cipher, r.steps[k].lead);
  }

  lemma TickedNext(r: Run, k: nat, s: u32)
    requires r.Valid() && k < |r.steps| && r.steps[k].Ticked?
    ensures Lookup(r.states[k + 1], s)
      == if s !in r.states[k] || r.states[k][s].IsStale(r.steps[k].now) then None
         else Some(r.states[k][s].Ticked(r.steps[k].now))
  {
    assert r.Steps(k);
  }

  /** A set is opened by a push. */
  lemma Opened(r: Run, s: u32, i: nat)
    requires r.Valid() && i < |r.steps| && s !in r.states[i] && s in r.states[i + 1]
    ensures Pushes(r.steps[i], s)
  {
    if r.steps[i].Ticked? { TickedNext(r, i, s); } else { PushedNext(r, i, s); }
  }

  // ----- What a set holds -----

  /** A set carries the time of its last fragment and the flags of its first one, and holds just what was pushed. */
  lemma {:induction false} SetFields(r: Run, s: u32, i: nat, k: nat)
    requires r.Valid() && k < |r.states| && r.Lifetime(s, i, k)
    ensures Pushes(r.steps[i], s)
    ensures r.states[k][s].lastReceived == LastPush(r.steps, s, k)
    ensures r.states[k][s].flags == r.steps[i].f.flags
    ensures r.states[k][s].state.Incomplete? ==> r.states[k][s].state.fragments == Arrived(r.steps, s, i, k)
    decreases k
  {
    Opened(r, s, i);
    if k > i + 1 { SetFields(r, s, i, k - 1); }
    var step := r.steps[k - 1];
    if step.Ticked? {
      TickedNext(r, k - 1, s);
    } else {
      PushedNext(r, k - 1, s);
      assert Arrived(r.steps, s, i, i) == map[];
    }
  }

  /** The message of these fragments can be read: they agree on their number, and open if they are sealed. */
  predicate Reads(m: map<u8, Fragment>, step: Step, s: u32)
    requires step.Pushed? && |m| <= 0x100
  {
    && (forall id :: id in m ==> m[id].fragTotal == step.lead.fragTotal)
    && (IsEncrypted(step.lead.flags) ==> step.cipher.Some? && step.cipher.value(s, Joined(m, |m|)).Some?)
  }

  function MessageOf(m: map<u8, Fragment>, step: Step, s: u32): seq<byte>
    requires step.Pushed? && |m| <= 0x100 && Reads(m, step, s)
  {
    if IsEncrypted(step.lead.flags) then step.cipher.value(s, Joined(m, |m|)).value else Joined(m, |m|)
  }

  /** A set as full as its last fragment asks delivers its message, or goes if that cannot be read; any other waits. */
  lemma FillsExactly(r: Run, s: u32, i: nat, k: nat)
    requires r.Valid() && k < |r.steps| && Pushes(r.steps[k], s)
    requires if s in r.states[k] then r.Lifetime(s, i, k) && r.states[k][s].state.Incomplete? else i == k
    ensures var m := Arrived(r.steps, s, i, k + 1);
      && |m| <= 0x100
      && if |m| <= r.steps[k].f.fragTotal then
           s in r.states[k + 1] && r.states[k + 1][s].state == Incomplete(m) && r.outputs[k] == []
         else if !Reads(m, r.steps[k], s) then s !in r.states[k + 1] && r.outputs[k] == []
         else
           && HasComplete(r.states[k + 1], s) && r.states[k + 1][s].state.since == r.steps[k].now
           && r.outputs[k] == [(s, MessageOf(m, r.steps[k], s))]
  {
    if s in r.states[k] { SetFields(r, s, i, k); }
    var step, prev := r.steps[k], Lookup(r.states[k], s);
    assert Arrived(r.steps, s, k, k) == map[];
    assert Gathered(prev, step.f) == Arrived(r.steps, s, i, k + 1);
    assert r.Steps(k);
    FilledState(prev, step.f, step.now, step.cipher, step.lead);
  }

  lemma FilledState(prev: Option<AssemblySet>, f: Fragment, now: nat, cipher: Option<Cipher>, lead: Fragment)
    requires prev.Some? ==> prev.value.state.Incomplete?
    ensures var (a, m) := (Absorb(prev, f, now, cipher, lead), Gathered(prev, f));
      && |m| <= 0x100
      && if |m| <= f.fragTotal then a.output == None && a.kept.Some? && a.kept.value.state == Incomplete(m)
         else
           && a.output == Transformed(m, f.seqId, cipher, lead)
           && if a.output.None? then a.kept == None
              else a.kept.Some? && a.kept.value.state.Complete? && a.kept.value.state.since == now
  {
    hide Transformed;
    hide Gathered;
    AtMost256(Gathered(prev, f));
  }

  // ----- When a set goes -----

  /**
   * A tick drops an incomplete set exactly when the last push of one of its fragments was at least 1 s
   * ago, without the key flag; 5 s with it; 50 s with the key and the expire flag.
   */
  lemma IncompleteDroppedExactly(r: Run, s: u32, i: nat, k: nat)
    requires r.Valid() && k < |r.steps| && r.steps[k].Ticked?
    requires r.Lifetime(s, i, k) && r.states[k][s].state.Incomplete?
    ensures Pushes(r.steps[i], s)
    ensures s !in r.states[k + 1] <==> r.steps[k].now >= LastPush(r.steps, s, k) + Patience(r.steps[i].f.flags)
  {
    SetFields(r, s, i, k);
    TickedNext(r, k, s);
  }

  lemma {:induction false} StillComplete(r: Run, s: u32, l: nat, k: nat)
    requires r.Valid() && l < k < |r.states| && CountOf(r.outputs[l], s) > 0
    requires forall n :: l < n <= k ==> s in r.states[n]
    ensures r.states[k][s].state.Complete? && r.states[k][s].state.since == r.steps[l].now
    decreases k
  {
    if k == l + 1 {
      DeliveryCompletes(r, s, l);
    } else {
      StillComplete(r, s, l, k - 1);
      StepFacts(r, k - 1, s);
    }
  }

  /** A tick drops a set whose message was delivered exactly when that was at least 20 s ago. */
  lemma CompleteDroppedExactly(r: Run, s: u32, l: nat, k: nat)
    requires r.Valid() && l < k < |r.steps| && CountOf(r.outputs[l], s) > 0 && r.steps[k].Ticked?
    requires forall n :: l < n <= k ==> s in r.states[n]
    ensures s !in r.states[k + 1] <==> r.steps[k].now >= r.steps[l].now + 20_000_000_000
  {
    StillComplete(r, s, l, k);
    TickedNext(r, k, s);
  }

  // ----- When a set is acknowledged -----

  /** While a set is incomplete, accepting fragments does not make it forget its last acknowledgement. */
  lemma {:induction false} LastAckKept(r: Run, s: u32, i: nat, k: nat)
    requires r.Valid() && k < |r.states| && r.Lifetime(s, i, k) && r.states[k][s].state.Incomplete?
    ensures r.states[k][s].lastSentAck == LastAck(r, s, i, k)
    decreases k
  {
    hide IsKey;
    Opened(r, s, i);
    var step := r.steps[k - 1];
    if step.Ticked? {
      TickedNext(r, k - 1, s);
      assert k - 1 != i;
      LastAckKept(r, s, i, k - 1);
    } else {
      PushedNext(r, k - 1, s);
      if k - 1 > i { LastAckKept(r, s, i, k - 1); }
    }
  }

  /** Step `a` is the last one that filed a fragment in the set before state `k`. */
  predicate LastAccept(r: Run, s: u32, a: nat, k: nat)
    requires k < |r.states| == |r.steps| + 1
  {
    a < k && r.Accepts(s, a) && r.AcceptCount(s, a + 1, k) == 0
  }

  /** Completion forgets the acknowledgements so far; any other fragment only their number. */
  lemma {:induction false} AckFields(r: Run, s: u32, i: nat, a: nat, k: nat)
    requires r.Valid() && k < |r.states| && r.Lifetime(s, i, k) && i <= a && LastAccept(r, s, a, k)
    ensures r.states[k][s].acksSent == r.AckCount(s, a + 1, k)
    ensures r.states[k][s].lastSentAck == LastAck(r, s, if r.states[k][s].state.Complete? then a + 1 else i, k)
    decreases k
  {
    hide IsKey;
    if r.states[k][s].state.Incomplete? { LastAckKept(r, s, i, k); }
    var step := r.steps[k - 1];
    if k == a + 1 {
      PushedNext(r, a, s);
    } else {
      AckFields(r, s, i, a, k - 1);
      if step.Ticked? {
        TickedNext(r, k - 1, s);
      } else {
        PushedNext(r, k - 1, s);
      }
    }
  }

  /**
   * A tick acknowledges a set exactly when it keeps it, the set was opened by a key fragment, fewer than
   * two acknowledgements followed the last fragment it filed, and the last acknowledgement, since it
   * completed if it did, was at least 50 ms ago.
   */
  lemma AcknowledgesExactly(r: Run, s: u32, i: nat, a: nat, k: nat)
    requires r.Valid() && k < |r.steps| && r.steps[k].Ticked?
    requires r.Lifetime(s, i, k) && i <= a && LastAccept(r, s, a, k)
    ensures Pushes(r.steps[i], s)
    ensures r.Acks(s, k) <==>
      var last := LastAck(r, s, if r.states[k][s].state.Complete? then a + 1 else i, k);
      && s in r.states[k + 1] && IsKey(r.steps[i].f.flags)
      && r.AckCount(s, a + 1, k) < 2 && (last.Some? ==> r.steps[k].now - last.value >= 50_000_000)
  {
    SetFields(r, s, i, k);
    AckFields(r, s, i, a, k);
    TickedNext(r, k, s);
  }
}
