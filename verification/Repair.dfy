/** One repair round: what the sender sends again, and what the receiver makes of it. */
module Repair {
  import opened Prelude
  import opened AckBitmap
  import opened Fragmentation
  import opened Assembler
  import opened SentData
  import opened Delivery

  /** A fragment reaching the receiver; `lead` as in a push. */
  datatype Arrival = Arrival(f: Fragment, now: nat, lead: Fragment)

  /**
   * The receiver's sets while the arrivals are pushed one by one: arrival `k` leads from `states[k]` to
   * `states[k + 1]` and outputs `outputs[k]`.
   */
  datatype Round = Round(states: seq<Pending>, arrivals: seq<Arrival>, outputs: seq<seq<Message>>,
                         cipher: Option<Cipher>)
  {
    ghost predicate Valid() {
      |states| == |arrivals| + 1 && |outputs| == |arrivals| && forall k :: 0 <= k < |arrivals| ==> StepsTo(k)
    }

    ghost predicate StepsTo(k: nat)
      requires k < |arrivals| == |outputs| < |states|
    {
      var a := arrivals[k];
      && LeadExists(states[k], a)
      && states[k + 1] == PushPending(states[k], a.f, a.now, cipher, a.lead)
      && outputs[k] == PushOutput(states[k], a.f, a.now, cipher, a.lead)
    }

    function Order(): (order: seq<Fragment>)
      ensures |order| == |arrivals|
    {
      seq(|arrivals|, i requires 0 <= i < |arrivals| => arrivals[i].f)
    }
  }

  ghost predicate LeadExists(pending: Pending, a: Arrival) {
    a.lead in Gathered(Lookup(pending, a.f.seqId), a.f).Values
  }

  lemma {:induction false} AbsentSize(ids: set<u8>, n: nat)
    requires n <= 0x100
    ensures |AbsentBelow(ids, n)| == |Below(n) - ids|
  {
    if n > 0 {
      AbsentSize(ids, n - 1);
      BelowWithout(ids, n);
    }
  }

  lemma BelowWithout(ids: set<u8>, n: nat)
    requires 0 < n <= 0x100
    ensures |Below(n) - ids| == |Below(n - 1) - ids| + if n - 1 in ids then 0 else 1
  {
    var before := Below(n - 1) - ids;
    if n - 1 in ids {
      assert Below(n) - ids == before;
    } else {
      assert Below(n) - ids == before + {n - 1};
    }
  }

  /** The sender's last acknowledgement of `s` is one the receiver's set may have generated as it is now. */
  ghost predicate UpToDate(set_: SentSet, receiver: AssemblySet) {
    set_.lastReceivedAck.Some? && receiver.MayAcknowledge(set_.lastReceivedAck.value.ack)
  }

  /** The ids of a round: the receiver's absent ids, ascending, but for the last id of a message in the gap. */
  function RoundIds(receiver: AssemblySet, fragTotal: u8): seq<u8>
    requires receiver.state.Incomplete?
  {
    AbsentBelow(receiver.state.fragments.Keys, Covered(fragTotal))
  }

  /**
   * A repair round sends, once each and in order, the fragments the receiver lacks, but for the last
   * fragment of a message in the gap.
   */
  lemma RoundSendsAbsent(set_: SentSet, receiver: AssemblySet, s: u32)
    requires set_.Valid() && receiver.state.Incomplete? && GenuineSet(receiver.state.fragments, s, set_.data)
    requires UpToDate(set_, receiver)
    ensures |Resent(set_, s)| == |RoundIds(receiver, set_.fragTotal)|
    ensures forall i :: 0 <= i < |Resent(set_, s)| ==>
      Resent(set_, s)[i] == FragmentAt(set_.data, s, ResendFlags(set_), RoundIds(receiver, set_.fragTotal)[i])
  {
    var m := receiver.state.fragments;
    var ack := set_.lastReceivedAck.value.ack;
    var id :| id in m && ack == BitmapOf(m.Keys, m[id].fragTotal);
    assert Genuine(m[id], s, set_.data);
    MissingComplementsBitmap(m.Keys, set_.fragTotal);
    PickedAt(FragmentsOf(set_.data, s, ResendFlags(set_)), MissingIds(ack, set_.fragTotal));
  }

  lemma PickedAt(all: seq<Fragment>, ids: seq<u8>)
    requires forall id :: id in ids ==> id < |all|
    ensures forall i :: 0 <= i < |ids| ==> ids[i] < |all| && Pick(all, ids)[i] == all[ids[i]]
  {
    forall i | 0 <= i < |ids| ensures ids[i] < |all| { assert ids[i] in ids; }
  }

  /** The fragments of a round are distinct and absent, and there are as many as the receiver lacks. */
  lemma RoundIsFresh(set_: SentSet, receiver: AssemblySet, s: u32)
    requires set_.Valid() && receiver.state.Incomplete? && GenuineSet(receiver.state.fragments, s, set_.data)
    requires UpToDate(set_, receiver)
    ensures DistinctIds(Resent(set_, s))
    ensures forall f :: f in Resent(set_, s) ==> f.fragId !in receiver.state.fragments
    ensures |receiver.state.fragments| + |Resent(set_, s)| == set_.fragTotal + if Gap(set_.fragTotal) then 0 else 1
  {
    RoundSendsAbsent(set_, receiver, s);
    var ids, round := RoundIds(receiver, set_.fragTotal), Resent(set_, s);
    AbsentBelowAscends(receiver.state.fragments.Keys, Covered(set_.fragTotal));
    forall i | 0 <= i < |round| ensures round[i].fragId == ids[i] && ids[i] in ids {}
    RoundSize(receiver, s, set_);
  }

  lemma RoundSize(receiver: AssemblySet, s: u32, set_: SentSet)
    requires set_.Valid() && receiver.state.Incomplete? && GenuineSet(receiver.state.fragments, s, set_.data)
    requires UpToDate(set_, receiver)
    ensures |receiver.state.fragments| + |RoundIds(receiver, set_.fragTotal)|
      == set_.fragTotal + (if Gap(set_.fragTotal) then 0 else 1)
  {
    var m := receiver.state.fragments;
    var id :| id in m && Fits(m.Keys, m[id].fragTotal);
    assert Genuine(m[id], s, set_.data);
    PanicsExactlyInGap(m, s, set_.data);
    AbsentSize(m.Keys, Covered(set_.fragTotal));
    forall k | k in m.Keys ensures k in Below(Covered(set_.fragTotal)) { assert Genuine(m[k], s, set_.data); }
    DifferenceSize(m.Keys, Below(Covered(set_.fragTotal)));
    assert |m.Keys| == |m|;
  }

  /**
   * A repair round completes: when the sender's last acknowledgement matches the receiver's set, the
   * fragments it sends again, arriving in any order, output the original message at the last of them
   * and not before. In the gap they never do.
   */
  lemma RepairRoundCompletes(r: Round, s: u32, set_: SentSet)
    requires r.Valid() && s in r.states[0] && r.states[0][s].state.Incomplete? && set_.Valid()
    requires GenuineSet(r.states[0][s].state.fragments, s, set_.data) && UpToDate(set_, r.states[0][s])
    requires multiset(r.Order()) == multiset(Resent(set_, s))
    ensures forall n :: 0 <= n < |r.outputs| ==>
      r.outputs[n] == if n == |r.outputs| - 1 && !Gap(set_.fragTotal) then [(s, set_.data)] else []
    ensures !Gap(set_.fragTotal) ==> |r.outputs| > 0
  {
    RoundIsFresh(set_, r.states[0][s], s);
    ResentGenuine(set_, s);
    DistinctInAnyOrder(Resent(set_, s), r.Order());
    forall n | 0 <= n < |r.outputs|
      ensures r.outputs[n] == if n == |r.outputs| - 1 && !Gap(set_.fragTotal) then [(s, set_.data)] else []
    {
      StillIncomplete(r, s, set_.data, n);
      NextArrival(r, s, set_.data, n);
      FilesOne(r.states[n], s, set_.data, r.arrivals[n], r.cipher);
      assert r.StepsTo(n);
    }
  }

  /** The set of `s` is incomplete and genuine, and the arrivals are genuine, absent and distinct. */
  ghost predicate Fresh(r: Round, s: u32, data: seq<byte>) {
    && r.Valid()
    && s in r.states[0] && r.states[0][s].state.Incomplete? && GenuineSet(r.states[0][s].state.fragments, s, data)
    && DistinctIds(r.Order())
    && forall f :: f in r.Order() ==> Genuine(f, s, data) && f.fragId !in r.states[0][s].state.fragments
  }

  /** The set is still incomplete and holds what it held and the first `n` arrivals. */
  ghost predicate Holding(r: Round, s: u32, data: seq<byte>, n: nat)
    requires Fresh(r, s, data) && n <= |r.arrivals|
  {
    var (after, before) := (r.states[n], r.states[0]);
    && s in after && after[s].state.Incomplete? && GenuineSet(after[s].state.fragments, s, data)
    && |after[s].state.fragments| == |before[s].state.fragments| + n
    && forall id :: id in after[s].state.fragments ==>
       id in before[s].state.fragments || ArrivedBefore(r.arrivals, n, id)
  }

  predicate ArrivedBefore(arrivals: seq<Arrival>, n: nat, id: u8)
    requires n <= |arrivals|
  {
    exists k :: 0 <= k < n && arrivals[k].f.fragId == id
  }

  /** As long as fragments are missing the set stays incomplete and holds what arrived. */
  lemma {:induction false} StillIncomplete(r: Round, s: u32, data: seq<byte>, n: nat)
    requires Fresh(r, s, data)
    requires n <= |r.arrivals| && |r.states[0][s].state.fragments| + n <= FragTotal(data)
    ensures Holding(r, s, data, n)
  {
    hide Fresh;
    hide Holding;
    if n > 0 {
      StillIncomplete(r, s, data, n - 1);
      HoldsOneMore(r, s, data, n - 1);
    } else {
      HoldsAtFirst(r, s, data);
    }
  }

  lemma HoldsAtFirst(r: Round, s: u32, data: seq<byte>)
    requires Fresh(r, s, data)
    ensures Holding(r, s, data, 0)
  {}

  lemma HoldsOneMore(r: Round, s: u32, data: seq<byte>, n: nat)
    requires Fresh(r, s, data) && n < |r.arrivals| && Holding(r, s, data, n)
    requires |r.states[0][s].state.fragments| + n < FragTotal(data)
    ensures Holding(r, s, data, n + 1)
  {
    hide PushPending;
    hide PushOutput;
    hide Genuine;
    hide LeadExists;
    hide Sendable;
    NextArrival(r, s, data, n);
    var a, m := r.arrivals[n], r.states[n][s].state.fragments;
    FilesOne(r.states[n], s, data, a, r.cipher);
    assert r.StepsTo(n);
    ArrivedNext(r.arrivals, n);
    assert r.states[n + 1][s].state == Incomplete(m[a.f.fragId := a.f]);
  }

  lemma ArrivedNext(arrivals: seq<Arrival>, n: nat)
    requires n < |arrivals|
    ensures ArrivedBefore(arrivals, n + 1, arrivals[n].f.fragId)
    ensures forall id :: ArrivedBefore(arrivals, n, id) ==> ArrivedBefore(arrivals, n + 1, id)
  {
    assert arrivals[n].f.fragId == arrivals[n].f.fragId;
    forall id | ArrivedBefore(arrivals, n, id) ensures ArrivedBefore(arrivals, n + 1, id) {
      var k :| 0 <= k < n && arrivals[k].f.fragId == id;
      assert arrivals[k].f.fragId == id;
    }
  }

  lemma NextArrival(r: Round, s: u32, data: seq<byte>, n: nat)
    requires Fresh(r, s, data) && n < |r.arrivals| && Holding(r, s, data, n)
    ensures Genuine(r.arrivals[n].f, s, data) && r.arrivals[n].f.fragId !in r.states[n][s].state.fragments
    ensures LeadExists(r.states[n], r.arrivals[n])
  {
    var order := r.Order();
    assert order[n] in order && r.StepsTo(n);
    forall k | 0 <= k < n ensures r.arrivals[k].f.fragId != r.arrivals[n].f.fragId {
      assert order[k].fragId != order[n].fragId;
    }
  }

  /** One absent genuine fragment is filed; the message is output exactly if it was the last one. */
  lemma FilesOne(pending: Pending, s: u32, data: seq<byte>, a: Arrival, cipher: Option<Cipher>)
    requires s in pending && pending[s].state.Incomplete? && GenuineSet(pending[s].state.fragments, s, data)
    requires Genuine(a.f, s, data) && a.f.fragId !in pending[s].state.fragments && LeadExists(pending, a)
    ensures var (m, after, output) := (pending[s].state.fragments, PushPending(pending, a.f, a.now, cipher, a.lead),
                                       PushOutput(pending, a.f, a.now, cipher, a.lead));
      if |m| < FragTotal(data) then
        && s in after && after[s].state == Incomplete(m[a.f.fragId := a.f])
        && GenuineSet(m[a.f.fragId := a.f], s, data) && |m[a.f.fragId := a.f]| == |m| + 1
        && output == []
      else output == [(s, data)]
  {
    AbsorbGenuine(Lookup(pending, s), a.f, a.now, cipher, a.lead, s, data);
    assert |pending[s].state.fragments[a.f.fragId := a.f]| == |pending[s].state.fragments| + 1;
  }
}
