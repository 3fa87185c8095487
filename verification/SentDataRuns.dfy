/** How often a tracked message is sent again, over every run of the tracker. */
module SentDataRuns {
  import opened Prelude
  import opened AckBitmap
  import opened Fragmentation
  import opened SentData

  datatype Step =
    | Sent(s: u32, data: seq<byte>, options: SendOptions, now: nat)
    | AckArrived(s: u32, ack: Bitmap, now: nat)
    | Ticked(now: nat)

  function Next(sets: Sets, step: Step): Sets {
    match step
    case Sent(s, data, options, now) =>
      if Sendable(data) && options.key then sets[s := NewSentSet(data, now, options)] else sets
    case AckArrived(s, ack, now) =>
      if s in sets then sets[s := sets[s].AckReceived(ack, now)] else sets
    case Ticked(now) => TickSets(sets, now)
  }

  /** A tracker over time, starting empty, under a clock that never goes back. */
  datatype Run = Run(states: seq<Sets>, steps: seq<Step>)
  {
    ghost predicate Valid() {
      && |states| == |steps| + 1
      && states[0] == map[]
      && forall k :: 0 <= k < |steps| ==> StepsTo(k)
    }

    /** A new message always takes a sequence id that is not registered. */
    ghost predicate StepsTo(k: nat)
      requires k < |steps| < |states|
    {
      && (steps[k].Sent? ==> steps[k].s !in states[k])
      && states[k + 1] == Next(states[k], steps[k])
      && Time(k) <= steps[k].now
    }

    /** The time of the step that led to state `k`. */
    function Time(k: nat): nat
      requires k <= |steps|
    {
      if k == 0 then 0 else steps[k - 1].now
    }

    /** Step `k` runs a repair round of `s`. */
    predicate Resends(s: u32, k: nat)
      requires k < |steps| < |states|
    {
      steps[k].Ticked? && s in states[k] && states[k][s].Resends(steps[k].now)
    }

    function RoundCount(s: u32, i: nat, j: nat): nat
      requires i <= j <= |steps| < |states|
    {
      if i == j then 0 else RoundCount(s, i, j - 1) + (if Resends(s, j - 1) then 1 else 0)
    }

    /** Step `l` brings the last acknowledgement of `s` before step `k`, and it misses nothing. */
    ghost predicate Clears(s: u32, l: nat, k: nat, fragTotal: u8)
      requires l < k <= |steps|
    {
      && steps[l].AckArrived? && steps[l].s == s && MissingIds(steps[l].ack, fragTotal) == []
      && forall n :: l < n < k && steps[n].AckArrived? ==> steps[n].s != s
    }

    predicate Tracked(s: u32, i: nat, j: nat)
      requires j < |states|
    {
      i <= j && forall k :: i <= k <= j ==> s in states[k]
    }
  }

  /**
   * No time recorded of a tracked message lies in the future, and no unanswered acknowledgement precedes the
   * last send.
   */
  predicate TimesOrdered(set_: SentSet, now: nat) {
    && set_.lastSentPacket <= now
    && (set_.unansweredAck.Some? ==>
       set_.lastSentPacket <= set_.unansweredAck.value.oldest <= set_.unansweredAck.value.newest <= now)
  }

  lemma {:induction false} TimesStayOrdered(r: Run, s: u32, k: nat)
    requires r.Valid() && k < |r.states| && s in r.states[k]
    ensures TimesOrdered(r.states[k][s], r.Time(k))
  {
    if k > 0 {
      assert r.StepsTo(k - 1);
      if s in r.states[k - 1] {
        TimesStayOrdered(r, s, k - 1);
      }
    }
  }

  /** The shortest time between two rounds: three fifths of the delay, rounded down. */
  function Spacing(set_: SentSet): nat {
    set_.resendDelay * 3 / 5
  }

  /** A round never follows the last send by less than the spacing; a live message past its delay is sent. */
  lemma RoundTiming(r: Run, s: u32, k: nat)
    requires r.Valid() && k < |r.steps| && r.steps[k].Ticked? && s in r.states[k]
    ensures r.Resends(s, k) ==> r.steps[k].now >= r.states[k][s].lastSentPacket + Spacing(r.states[k][s])
    ensures !r.states[k][s].IsExpired(r.steps[k].now) && r.states[k][s].completeSince.None? ==>
      r.steps[k].now >= r.states[k][s].lastSentPacket + r.states[k][s].resendDelay ==> r.Resends(s, k)
  {
    assert r.StepsTo(k);
    TimesStayOrdered(r, s, k);
  }

  lemma OneStep(r: Run, s: u32, k: nat)
    requires r.Valid() && k < |r.steps| && s in r.states[k] && s in r.states[k + 1]
    ensures r.states[k + 1][s].resendDelay == r.states[k][s].resendDelay
    ensures r.states[k + 1][s].lastSentPacket >= r.states[k][s].lastSentPacket
      + (if r.Resends(s, k) then Spacing(r.states[k][s]) else 0)
  {
    assert r.StepsTo(k);
    if r.steps[k].Ticked? {
      RoundTiming(r, s, k);
    }
  }

  /** Every round pushes the last send on by at least the spacing. */
  lemma {:induction false} RoundsSpaced(r: Run, s: u32, i: nat, j: nat)
    requires r.Valid() && j < |r.states| && r.Tracked(s, i, j)
    ensures r.states[j][s].resendDelay == r.states[i][s].resendDelay
    ensures r.states[j][s].lastSentPacket >= r.states[i][s].lastSentPacket
      + r.RoundCount(s, i, j) * Spacing(r.states[i][s])
    ensures r.states[j][s].lastSentPacket <= r.Time(j)
    decreases j
  {
    TimesStayOrdered(r, s, j);
    if i < j {
      RoundsSpaced(r, s, i, j - 1);
      OneStep(r, s, j - 1);
      OneMoreRound(r.RoundCount(s, i, j - 1), Spacing(r.states[i][s]));
    }
  }

  lemma OneMoreRound(n: nat, q: nat)
    ensures (n + 1) * q == n * q + q
  {}

  /**
   * The rate bound: while a message is tracked, the rounds run between two moments are at most one
   * more than the spacing fits into the time between them.
   */
  lemma RoundsInWindow(r: Run, s: u32, i: nat, j: nat)
    requires r.Valid() && j < |r.states| && r.Tracked(s, i, j)
    ensures r.RoundCount(s, i, j) > 0 ==> (r.RoundCount(s, i, j) - 1) * Spacing(r.states[i][s]) <= r.Time(j) - r.Time(i)
  {
    if r.RoundCount(s, i, j) > 0 {
      var k := FirstRound(r, s, i, j);
      assert r.StepsTo(k);
      TimeMonotone(r, i, k);
      RoundsSpaced(r, s, i, k);
      RoundsSpaced(r, s, k + 1, j);
    }
  }

  lemma {:induction false} FirstRound(r: Run, s: u32, i: nat, j: nat) returns (k: nat)
    requires r.Valid() && j < |r.states| && r.Tracked(s, i, j) && r.RoundCount(s, i, j) > 0
    ensures i <= k < j && r.Resends(s, k)
    ensures r.RoundCount(s, k + 1, j) == r.RoundCount(s, i, j) - 1
    decreases j
  {
    if r.RoundCount(s, i, j - 1) == 0 {
      return j - 1;
    }
    k := FirstRound(r, s, i, j - 1);
  }

  lemma {:induction false} TimeMonotone(r: Run, i: nat, j: nat)
    requires r.Valid() && i <= j < |r.states|
    ensures r.Time(i) <= r.Time(j)
    decreases j
  {
    if i < j {
      assert r.StepsTo(j - 1);
      TimeMonotone(r, i, j - 1);
    }
  }

  /** State `i` is the first in which `s` is tracked, and it is still tracked in state `j`. */
  ghost predicate TrackedSince(r: Run, s: u32, i: nat, j: nat) {
    r.Valid() && 0 < i <= j < |r.states| && s !in r.states[i - 1] && r.Tracked(s, i, j)
  }

  lemma {:induction false} LastAckCounts(r: Run, s: u32, i: nat, j: nat)
    requires TrackedSince(r, s, i, j)
    ensures r.states[j][s].Valid() && r.states[j][s].fragTotal == r.states[i][s].fragTotal
    ensures r.states[j][s].AllAcked() <==> exists l :: i <= l < j && r.Clears(s, l, j, r.states[i][s].fragTotal)
    decreases j
  {
    hide MissingIds;
    var total := r.states[i][s].fragTotal;
    assert r.StepsTo(j - 1);
    if i < j {
      LastAckCounts(r, s, i, j - 1);
      var step := r.steps[j - 1];
      if step.AckArrived? && step.s == s {
        assert r.states[j][s].AllAcked() <==> r.Clears(s, j - 1, j, total);
      } else {
        assert r.states[j][s].AllAcked() <==> r.states[j - 1][s].AllAcked();
        forall l | i <= l < j - 1 ensures r.Clears(s, l, j, total) <==> r.Clears(s, l, j - 1, total) {}
        assert !r.Clears(s, j - 1, j, total);
        if r.states[j][s].AllAcked() {
          var l :| i <= l < j - 1 && r.Clears(s, l, j - 1, total);
          assert r.Clears(s, l, j, total);
        }
        if l :| i <= l < j && r.Clears(s, l, j, total) { assert r.Clears(s, l, j - 1, total); }
      }
    }
  }

  /** The round of step `k` finds nothing to repair. */
  ghost predicate Concludes(r: Run, s: u32, i: nat, k: nat)
    requires TrackedSince(r, s, i, k) && k < |r.steps|
  {
    r.Resends(s, k) && exists l :: i <= l < k && r.Clears(s, l, k, r.states[i][s].fragTotal)
  }

  /**
   * What a positive answer means: since the message was sent, some repair round found that the last
   * acknowledgement before it missed nothing. An acknowledgement alone does not change the answer.
   */
  lemma {:induction false} ReportedExactlyAfterEmptyRound(r: Run, s: u32, i: nat, j: nat)
    requires TrackedSince(r, s, i, j)
    ensures forall k :: i <= k < j ==> TrackedSince(r, s, i, k)
    ensures ReportOf(r.states[j], s) == Some(true) <==> exists k :: i <= k < j && Concludes(r, s, i, k)
    decreases j
  {
    hide MissingIds;
    assert r.StepsTo(j - 1);
    if i < j {
      ReportedExactlyAfterEmptyRound(r, s, i, j - 1);
      LastAckCounts(r, s, i, j - 1);
      assert r.states[j][s].completeSince.Some? <==>
        r.states[j - 1][s].completeSince.Some? || (r.Resends(s, j - 1) && r.states[j - 1][s].AllAcked());
      assert (r.Resends(s, j - 1) && r.states[j - 1][s].AllAcked()) <==> Concludes(r, s, i, j - 1);
    }
  }
}
