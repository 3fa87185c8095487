/**
 * When a tracked message is sent again and when it is dropped, read off the steps of a run: its own send,
 * the acknowledgements for it and the ticks.
 */
module SentDataTimes {
  import opened Prelude
  import opened AckBitmap
  import opened Fragmentation
  import opened SentData
  import opened SentDataRuns

  /** Message `s` was sent with step `i - 1` and is tracked up to state `j`. */
  ghost predicate SentAt(r: Run, s: u32, i: nat, j: nat) {
    TrackedSince(r, s, i, j) && r.steps[i - 1].Sent? && r.steps[i - 1].s == s
  }

  lemma SendStarts(r: Run, s: u32, i: nat, j: nat)
    requires TrackedSince(r, s, i, j)
    ensures SentAt(r, s, i, j)
    ensures var send := r.steps[i - 1];
      Sendable(send.data) && send.options.key && r.states[i][s] == NewSentSet(send.data, send.now, send.options)
  {
    assert r.StepsTo(i - 1);
  }

  // ----- Read off the steps -----

  predicate AckFor(step: Step, s: u32) { step.AckArrived? && step.s == s }

  /** The time at which message `s`, sent with step `i - 1`, was last sent or sent again before state `j`. */
  function LastSend(r: Run, s: u32, i: nat, j: nat): nat
    requires 0 < i <= j <= |r.steps| < |r.states|
    decreases j
  {
    if j == i then r.steps[i - 1].now
    else if r.Resends(s, j - 1) then r.steps[j - 1].now else LastSend(r, s, i, j - 1)
  }

  /** The first and the last acknowledgement of `s` since then, if any. */
  function AcksSince(r: Run, s: u32, i: nat, j: nat): Option<(nat, nat)>
    requires 0 < i <= j <= |r.steps| < |r.states|
    decreases j
  {
    if j == i || r.Resends(s, j - 1) then None
    else if !AckFor(r.steps[j - 1], s) then AcksSince(r, s, i, j - 1)
    else if AcksSince(r, s, i, j - 1).None? then Some((r.steps[j - 1].now, r.steps[j - 1].now))
    else Some((AcksSince(r, s, i, j - 1).value.0, r.steps[j - 1].now))
  }

  /** A round before state `j` concludes the message, and step `l` brought the acknowledgement it goes by. */
  ghost predicate ConcludedBy(r: Run, s: u32, i: nat, j: nat, m: nat, l: nat)
    requires TrackedSince(r, s, i, j)
  {
    i <= l < m < j && r.Resends(s, m) && r.Clears(s, l, m, r.states[i][s].fragTotal)
  }

  // ----- The fields of a tracked message -----

  lemma FieldsNext(r: Run, s: u32, k: nat)
    requires r.Valid() && k < |r.steps| && s in r.states[k] && s in r.states[k + 1]
    ensures var (x, step) := (r.states[k][s], r.steps[k]);
      r.states[k + 1][s] == if AckFor(step, s) then x.AckReceived(step.ack, step.now)
                            else if r.Resends(s, k) then x.AfterResend(step.now) else x
  {
    hide MissingIds;
    assert r.StepsTo(k);
  }

  lemma {:induction false} SendFields(r: Run, s: u32, i: nat, j: nat)
    requires SentAt(r, s, i, j)
    ensures var (x, send, acks) := (r.states[j][s], r.steps[i - 1], AcksSince(r, s, i, j));
      && x.data == send.data && x.resendDelay == send.options.resendDelay
      && x.lastSentPacket == LastSend(r, s, i, j)
      && x.expiration
         == (if send.options.expiration.Some? then Some(send.now + send.options.expiration.value) else None)
      && x.unansweredAck == if acks.Some? then Some(Unanswered(acks.value.0, acks.value.1)) else None
    decreases j
  {
    hide MissingIds;
    hide Sendable;
    if j == i {
      SendStarts(r, s, i, j);
    } else {
      SendFields(r, s, i, j - 1);
      FieldsNext(r, s, j - 1);
    }
  }

  /** A message is reported received exactly after such a round, as of the acknowledgement it went by. */
  lemma {:induction false} Conclusion(r: Run, s: u32, i: nat, j: nat)
    requires SentAt(r, s, i, j)
    ensures ReportOf(r.states[j], s) == Some(true) ==>
      exists m: nat, l: nat :: ConcludedBy(r, s, i, j, m, l) && r.states[j][s].completeSince == Some(r.steps[l].now)
    ensures forall m: nat, l: nat :: ConcludedBy(r, s, i, j, m, l) ==>
      r.states[j][s].completeSince == Some(r.steps[l].now)
    decreases j
  {
    hide MissingIds;
    if j == i {
      SendStarts(r, s, i, j);
    } else {
      Conclusion(r, s, i, j - 1);
      FieldsNext(r, s, j - 1);
      LastAckAt(r, s, i, j - 1);
      LastAckCounts(r, s, i, j - 1);
      forall m: nat, l: nat | ConcludedBy(r, s, i, j, m, l)
        ensures r.states[j][s].completeSince == Some(r.steps[l].now)
      {
        if m < j - 1 { assert ConcludedBy(r, s, i, j - 1, m, l); }
      }
      if ReportOf(r.states[j], s) == Some(true) {
        if r.states[j - 1][s].completeSince.Some? {
          var m: nat, l: nat :|
            ConcludedBy(r, s, i, j - 1, m, l) && r.states[j - 1][s].completeSince == Some(r.steps[l].now);
          assert ConcludedBy(r, s, i, j, m, l);
        } else {
          var l :| i <= l < j - 1 && r.Clears(s, l, j - 1, r.states[i][s].fragTotal);
          assert ConcludedBy(r, s, i, j, j - 1, l);
        }
      }
    }
  }

  /** The time kept with the last acknowledgement is that of the step that brought it. */
  lemma {:induction false} LastAckAt(r: Run, s: u32, i: nat, j: nat)
    requires SentAt(r, s, i, j)
    ensures forall l :: i <= l < j && AckFor(r.steps[l], s) && (forall n :: l < n < j ==> !AckFor(r.steps[n], s)) ==>
      r.states[j][s].lastReceivedAck == Some(ReceivedAck(r.steps[l].now, r.steps[l].ack))
    decreases j
  {
    hide MissingIds;
    if j > i {
      LastAckAt(r, s, i, j - 1);
      FieldsNext(r, s, j - 1);
    }
  }

  // ----- When it is dropped -----

  /**
   * A tracked message goes exactly with a tick later than its expiration, counted from its send, or at
   * least 5 s after the acknowledgement by which it was found received.
   */
  lemma DroppedExactly(r: Run, s: u32, i: nat, k: nat)
    requires SentAt(r, s, i, k) && k < |r.steps|
    ensures s !in r.states[k + 1] <==>
      var (send, step) := (r.steps[i - 1], r.steps[k]);
      && step.Ticked?
      && (|| (send.options.expiration.Some? && step.now > send.now + send.options.expiration.value)
          || exists m: nat, l: nat :: ConcludedBy(r, s, i, k, m, l) && step.now >= r.steps[l].now + 5_000_000_000)
  {
    SendFields(r, s, i, k);
    Conclusion(r, s, i, k);
    assert r.StepsTo(k);
    if ReportOf(r.states[k], s) == Some(true) {
      var m: nat, l: nat :| ConcludedBy(r, s, i, k, m, l) && r.states[k][s].completeSince == Some(r.steps[l].now);
      TimeMonotone(r, l + 1, k);
      assert r.StepsTo(l);
    }
  }

  /** Until it expires, a message that was never reported received is tracked after every step. */
  lemma {:induction false} TrackedUntilExpired(r: Run, s: u32, i: nat, j: nat)
    requires r.Valid() && 0 < i <= j < |r.states| && s !in r.states[i - 1] && s in r.states[i]
    requires forall k :: i <= k < j ==> ReportOf(r.states[k], s) != Some(true)
    requires var send := r.steps[i - 1];
      send.Sent? && (send.options.expiration.Some? ==> r.Time(j) <= send.now + send.options.expiration.value)
    ensures r.Tracked(s, i, j)
    decreases j
  {
    if j > i {
      assert r.StepsTo(j - 1);
      TrackedUntilExpired(r, s, i, j - 1);
      SendStarts(r, s, i, j - 1);
      Conclusion(r, s, i, j - 1);
      DroppedExactly(r, s, i, j - 1);
    }
  }

  // ----- When it is sent again -----

  /**
   * A tick sends a message again exactly when it is neither expired nor reported received, and the resend
   * delay has passed since the last send, or four fifths of it since the first acknowledgement that
   * followed, or three fifths since the last one.
   */
  lemma ResendsExactly(r: Run, s: u32, i: nat, k: nat)
    requires SentAt(r, s, i, k) && k < |r.steps| && r.steps[k].Ticked?
    ensures r.Resends(s, k) <==>
      var (send, now, acks) := (r.steps[i - 1], r.steps[k].now, AcksSince(r, s, i, k));
      var delay := send.options.resendDelay;
      && (send.options.expiration.Some? ==> now <= send.now + send.options.expiration.value)
      && ReportOf(r.states[k], s) == Some(false)
      && (|| now >= LastSend(r, s, i, k) + delay
          || (acks.Some? && (now >= acks.value.0 + delay * 4 / 5 || now >= acks.value.1 + delay * 3 / 5)))
  {
    SendFields(r, s, i, k);
    TimesStayOrdered(r, s, k);
    assert r.StepsTo(k);
  }
}
