/** The receiving side: fragment sets, reassembly and acknowledgements (fragment/frag_assembly.rs). */
module Assembler {
  import opened Prelude
  import opened AckBitmap
  import opened Fragmentation

  const ACK_SEND_INTERVAL: nat := 50 * MILLISECOND
  const COMPLETE_LIFETIME: nat := 20 * SECOND

  /** Opens the sealed bytes of a message under the shared secret and the nonce of its sequence id. */
  type Cipher = (u32, seq<byte>) -> Option<seq<byte>>

  datatype SetState =
    | Incomplete(fragments: map<u8, Fragment>)
    | Complete(since: nat, fragTotal: u8)

  datatype AssemblySet = AssemblySet(
    state: SetState,
    flags: SetFlags,
    lastSentAck: Option<nat>,
    lastReceived: nat,
    acksSent: nat)
  {
    predicate CanSendAck() { IsKey(flags) }

    predicate IsStale(now: nat) {
      match state
      case Complete(since, _) => now >= since + COMPLETE_LIFETIME
      case Incomplete(_) =>
        if !IsKey(flags) then now >= lastReceived + 1 * SECOND
        else if !IsExpire(flags) then now >= lastReceived + 5 * SECOND
        else now >= lastReceived + 50 * SECOND
    }

    /** The tick at `now` acknowledges this set. */
    predicate Due(now: nat) {
      && !IsStale(now)
      && CanSendAck()
      && acksSent < 2
      && (lastSentAck.Some? ==> now - lastSentAck.value >= ACK_SEND_INTERVAL)
    }

    /** Marks a full set complete; panics when it already is. */
    function Completed(now: nat): AssemblySet
      requires state.Incomplete?
    {
      this.(state := Complete(now, (|state.fragments| - 1) % 0x100), lastSentAck := None, acksSent := 0)
    }

    function AckSent(now: nat): AssemblySet {
      this.(lastSentAck := Some(now), acksSent := acksSent + 1)
    }

    function Ticked(now: nat): AssemblySet {
      if Due(now) then AckSent(now) else this
    }

    /** `ack` is an acknowledgement the set may generate; all fragments agree on its length or any one decides. */
    ghost predicate MayAcknowledge(ack: Bitmap) {
      match state
      case Complete(_, fragTotal) => ack == CreateComplete(fragTotal)
      case Incomplete(m) => exists id ::
        id in m && Fits(m.Keys, m[id].fragTotal) && ack == BitmapOf(m.Keys, m[id].fragTotal)
    }

    /** Some fragment announces a bitmap too short for the ids already received. */
    ghost predicate MayPanic() {
      match state
      case Complete(_, _) => false
      case Incomplete(m) => exists id :: id in m && !Fits(m.Keys, m[id].fragTotal)
    }
  }

  /** Every id has a bit in a bitmap for `fragTotal`. */
  predicate Fits(ids: set<u8>, fragTotal: u8) {
    forall id :: id in ids ==> id < 8 * AckSize(fragTotal)
  }

  function NewSet(now: nat, flags: SetFlags): AssemblySet {
    AssemblySet(Incomplete(map[]), flags, None, now, 0)
  }

  type Pending = map<u32, AssemblySet>
  type Message = (u32, seq<byte>)

  /** What every fragment that the packet parser hands over satisfies. */
  predicate WellFormed(f: Fragment) { f.fragId <= f.fragTotal }

  ghost predicate ValidSet(s: u32, set_: AssemblySet) {
    set_.state.Incomplete? ==> set_.state.fragments != map[] && AllFiled(set_.state.fragments, s)
  }

  /** Every fragment is stored under its own id and belongs to message `s`. */
  ghost predicate AllFiled(m: map<u8, Fragment>, s: u32) {
    forall id :: id in m ==> m[id].fragId == id && m[id].seqId == s && WellFormed(m[id])
  }

  ghost predicate ValidPending(pending: Pending) {
    forall s :: s in pending ==> ValidSet(s, pending[s])
  }

  // ----- One push, on values -----

  function Lookup(pending: Pending, s: u32): Option<AssemblySet> {
    if s in pending then Some(pending[s]) else None
  }

  function Store(pending: Pending, s: u32, set_: Option<AssemblySet>): Pending {
    match set_
    case None => pending - {s}
    case Some(x) => pending[s := x]
  }

  /** The fragments of the incomplete set once `f` has been filed. */
  function Gathered(prev: Option<AssemblySet>, f: Fragment): map<u8, Fragment> {
    match prev
    case Some(AssemblySet(Incomplete(m), _, _, _, _)) => m[f.fragId := f]
    case _ => map[f.fragId := f]
  }

  /**
   * The message of a full set. `lead` is the fragment that iterating over the hash map yields first:
   * it decides whether the message is taken for encrypted.
   */
  function Transformed(m: map<u8, Fragment>, s: u32, cipher: Option<Cipher>, lead: Fragment): Option<seq<byte>>
    requires |m| <= 0x100
  {
    if exists id :: id in m && m[id].fragTotal != lead.fragTotal then None
    else if IsEncrypted(lead.flags) then
      if cipher.None? then None else cipher.value(s, Joined(m, |m|))
    else Some(Joined(m, |m|))
  }

  datatype Absorbed = Absorbed(kept: Option<AssemblySet>, output: Option<seq<byte>>)

  /** The fragment set once `f` has been filed in it, before any attempt at the message. */
  function Filing(prev: Option<AssemblySet>, f: Fragment, now: nat): AssemblySet {
    var base := (if prev.Some? then prev.value else NewSet(now, f.flags)).(lastReceived := now);
    if base.state.Complete? then base else base.(acksSent := 0, state := Incomplete(Gathered(prev, f)))
  }

  predicate Fills(prev: Option<AssemblySet>, f: Fragment) {
    (prev.Some? ==> prev.value.state.Incomplete?) && |Gathered(prev, f)| > f.fragTotal
  }

  /** What pushing `f` makes of its fragment set, and the message it completes. */
  function Absorb(prev: Option<AssemblySet>, f: Fragment, now: nat, cipher: Option<Cipher>, lead: Fragment): Absorbed {
    if !Fills(prev, f) then Absorbed(Some(Filing(prev, f, now)), None)
    else
      AtMost256(Gathered(prev, f));
      match Transformed(Gathered(prev, f), f.seqId, cipher, lead)
      case None => Absorbed(None, None)
      case Some(bytes) => Absorbed(Some(Filing(prev, f, now).Completed(now)), Some(bytes))
  }

  function PushPending(pending: Pending, f: Fragment, now: nat, cipher: Option<Cipher>, lead: Fragment): Pending {
    Store(pending, f.seqId, Absorb(Lookup(pending, f.seqId), f, now, cipher, lead).kept)
  }

  function PushOutput(pending: Pending, f: Fragment, now: nat, cipher: Option<Cipher>, lead: Fragment): seq<Message> {
    match Absorb(Lookup(pending, f.seqId), f, now, cipher, lead).output
    case None => []
    case Some(bytes) => [(f.seqId, bytes)]
  }

  lemma AtMost256(m: map<u8, Fragment>)
    ensures |m| <= 0x100
  {
    assert |m| == |m.Keys|;
    SubsetSize(m.Keys, Below(0x100));
  }

  function TickPending(pending: Pending, now: nat): Pending {
    map s | s in pending && !pending[s].IsStale(now) :: pending[s].Ticked(now)
  }

  /** The clock is past every acknowledgement: the assertion of the tick. */
  ghost predicate ClockPast(pending: Pending, now: nat) {
    forall s :: s in pending && pending[s].lastSentAck.Some? ==> now > pending[s].lastSentAck.value
  }

  /** The acknowledgements of a tick over the sets `seen`: one for each set that is due, in any order. */
  ghost predicate AcksOf(acks: seq<(u32, Bitmap)>, pending: Pending, now: nat, seen: set<u32>)
    requires seen <= pending.Keys
  {
    && (forall i :: 0 <= i < |acks| ==>
          acks[i].0 in seen && pending[acks[i].0].Due(now) && pending[acks[i].0].MayAcknowledge(acks[i].1))
    && (forall i, j :: 0 <= i < j < |acks| ==> acks[i].0 != acks[j].0)
    && (forall s :: s in seen && pending[s].Due(now) ==> exists i :: 0 <= i < |acks| && acks[i].0 == s)
  }

  /** A full set whose fragments agree on their number has every id: the pigeonhole behind a push. */
  lemma FullSetHasEveryId(m: map<u8, Fragment>, s: u32, f: Fragment, lead: Fragment)
    requires AllFiled(m, s)
    requires f.fragId in m && m[f.fragId] == f && |m| > f.fragTotal
    requires forall id :: id in m ==> m[id].fragTotal == lead.fragTotal
    ensures |m| == lead.fragTotal + 1 && m.Keys == Below(|m|)
  {
    AtMost256(m);
    var n := f.fragTotal + 1;
    forall id | id in m ensures id in Below(n) {
      assert m[id].fragId == id && m[id].fragTotal == lead.fragTotal == f.fragTotal;
    }
    assert |m.Keys| == |m|;
    SubsetOfSameSize(m.Keys, Below(n));
  }

  /** The values of a hash map, in iteration order. */
  method Values(m: map<u8, Fragment>) returns (values: seq<Fragment>)
    requires forall id :: id in m ==> m[id].fragId == id
    ensures |values| == |m| && ById(values) == m && DistinctIds(values)
  {
    values := [];
    var todo := m.Keys;
    while todo != {}
      invariant todo <= m.Keys
      invariant ById(values) == map id | id in m && id !in todo :: m[id]
      invariant |values| + |todo| == |m.Keys|
      invariant DistinctIds(values) && forall i :: 0 <= i < |values| ==> values[i].fragId in m.Keys - todo
    {
      var id :| id in todo;
      ghost var before := values;
      values := values + [m[id]];
      assert values[..|before|] == before && values[|before|] == m[id];
      todo := todo - {id};
    }
    assert ById(values) == m;
    assert |m.Keys| == |m|;
  }

  class FragmentAssembler {
    var pendingFragments: Pending
    var outMessages: seq<Message>

    ghost predicate Valid()
      reads this
    {
      ValidPending(pendingFragments)
    }

    constructor ()
      ensures Valid() && pendingFragments == map[] && outMessages == []
    {
      pendingFragments := map[];
      outMessages := [];
    }

    method NextOutMessage() returns (r: Option<Message>)
      modifies this`outMessages
      ensures old(outMessages) == [] ==> r == None && outMessages == []
      ensures old(outMessages) != [] ==> r == Some(old(outMessages)[0]) && outMessages == old(outMessages)[1..]
    {
      if outMessages == [] { return None; }
      r := Some(outMessages[0]);
      outMessages := outMessages[1..];
    }

    /**
     * Turns a set with enough fragments into a message. The set must exist and be incomplete, or the
     * code panics.
     */
    method TransformMessage(s: u32, cipher: Option<Cipher>, now: nat, ghost f: Fragment)
      returns (ok: bool, lead: Fragment)
      requires Valid()
      requires s in pendingFragments && pendingFragments[s].state.Incomplete?
      requires FullWith(pendingFragments[s].state.fragments, f)
      modifies this
      ensures pendingFragments == old(pendingFragments)[s := old(pendingFragments)[s].Completed(now)]
      ensures |old(pendingFragments)[s].state.fragments| <= 0x100
      ensures lead in old(pendingFragments)[s].state.fragments.Values
      ensures ok <==> Transformed(old(pendingFragments)[s].state.fragments, s, cipher, lead).Some?
      ensures ok ==>
        outMessages
          == old(outMessages) + [(s, Transformed(old(pendingFragments)[s].state.fragments, s, cipher, lead).value)]
      ensures !ok ==> outMessages == old(outMessages)
    {
      var m := pendingFragments[s].state.fragments;
      AtMost256(m);
      pendingFragments := pendingFragments[s := pendingFragments[s].Completed(now)];
      var message: Option<seq<byte>>;
      message, lead := Rebuild(m, s, cipher, f);
      if message.None? {
        return false, lead;
      }
      outMessages := outMessages + [(s, message.value)];
      return true, lead;
    }

    /**
     * Files a fragment and delivers the message when the set is full. `lead` is the fragment the hash
     * map yields first, when the message is built.
     */
    method Push(f: Fragment, now: nat, cipher: Option<Cipher>) returns (ghost lead: Fragment)
      requires Valid() && WellFormed(f)
      modifies this
      ensures Valid()
      ensures lead in Gathered(Lookup(old(pendingFragments), f.seqId), f).Values
      ensures pendingFragments == PushPending(old(pendingFragments), f, now, cipher, lead)
      ensures outMessages == old(outMessages) + PushOutput(old(pendingFragments), f, now, cipher, lead)
    {
      hide Transformed;
      lead := f;
      ghost var prev := Lookup(pendingFragments, f.seqId);
      assert f.fragId in Gathered(prev, f) && Gathered(prev, f)[f.fragId] == f;
      var tryTransform := File(f, now);
      if tryTransform {
        lead := TransformOrRemove(f.seqId, cipher, now, f);
      }
    }

    /** Delivers the message of a full set, or drops the set when it is corrupted. */
    method TransformOrRemove(s: u32, cipher: Option<Cipher>, now: nat, ghost f: Fragment) returns (lead: Fragment)
      requires Valid()
      requires s in pendingFragments && pendingFragments[s].state.Incomplete?
      requires FullWith(pendingFragments[s].state.fragments, f)
      modifies this
      ensures Valid()
      ensures |old(pendingFragments)[s].state.fragments| <= 0x100
      ensures lead in old(pendingFragments)[s].state.fragments.Values
      ensures match Transformed(old(pendingFragments)[s].state.fragments, s, cipher, lead) {
        case None => pendingFragments == old(pendingFragments) - {s} && outMessages == old(outMessages)
        case Some(bytes) =>
          && pendingFragments == old(pendingFragments)[s := old(pendingFragments)[s].Completed(now)]
          && outMessages == old(outMessages) + [(s, bytes)]
      }
    {
      var ok;
      ok, lead := TransformMessage(s, cipher, now, f);
      if !ok {
        pendingFragments := pendingFragments - {s};
      }
    }

    /** Files a fragment in its set, opening the set if need be, and says whether the set is now full. */
    method File(f: Fragment, now: nat) returns (tryTransform: bool)
      requires Valid() && WellFormed(f)
      modifies this`pendingFragments
      ensures Valid()
      ensures pendingFragments
        == old(pendingFragments)[f.seqId := Filing(Lookup(old(pendingFragments), f.seqId), f, now)]
      ensures tryTransform <==> Fills(Lookup(old(pendingFragments), f.seqId), f)
    {
      var s := f.seqId;
      var set_ := if s in pendingFragments then pendingFragments[s] else NewSet(now, f.flags);
      set_ := set_.(lastReceived := now);
      tryTransform := false;
      if set_.state.Incomplete? {
        set_ := set_.(acksSent := 0, state := Incomplete(set_.state.fragments[f.fragId := f]));
        tryTransform := |set_.state.fragments| > f.fragTotal;
      }
      StoreKeepsValid(pendingFragments, f, set_);
      pendingFragments := pendingFragments[s := set_];
    }

    /**
     * Drops stale sets and acknowledges the sets that are due. `None` is the out-of-range panic of the
     * bitmap; it can only come from a set that is due and incomplete.
     */
    method Tick(now: nat) returns (r: Option<seq<(u32, Bitmap)>>)
      requires Valid() && ClockPast(pendingFragments, now)
      modifies this`pendingFragments
      ensures Valid()
      ensures r.None? ==> exists s ::
        s in old(pendingFragments) && old(pendingFragments)[s].Due(now) && old(pendingFragments)[s].MayPanic()
      ensures r.Some? ==> pendingFragments == TickPending(old(pendingFragments), now)
      ensures r.Some? ==> AcksOf(r.value, old(pendingFragments), now, old(pendingFragments).Keys)
    {
      var live, stale;
      r, live, stale := TickAll(pendingFragments, now);
      if r.None? {
        return;
      }
      assert live - stale == TickPending(pendingFragments, now);
      pendingFragments := live - stale;
    }
  }

  /** Visits every set once, in any order: it is stale, or acknowledged, or left alone. */
  method TickAll(pending: Pending, now: nat) returns (r: Option<seq<(u32, Bitmap)>>, live: Pending, stale: set<u32>)
    requires ValidPending(pending)
    ensures r.None? ==> exists s :: s in pending && pending[s].Due(now) && pending[s].MayPanic()
    ensures r.Some? ==> AcksOf(r.value, pending, now, pending.Keys)
    ensures r.Some? ==> live.Keys == pending.Keys
    ensures r.Some? ==> forall s :: s in pending && !pending[s].IsStale(now) ==> live[s] == pending[s].Ticked(now)
    ensures r.Some? ==> forall s :: s in stale <==> s in pending && pending[s].IsStale(now)
  {
    var acks: seq<(u32, Bitmap)> := [];
    live := map[];
    stale := {};
    var todo := pending.Keys;
    while todo != {}
      invariant todo <= pending.Keys && live.Keys == pending.Keys - todo
      invariant forall s :: s in live && !pending[s].IsStale(now) ==> live[s] == pending[s].Ticked(now)
      invariant forall s :: s in stale <==> s in live && pending[s].IsStale(now)
      invariant AcksOf(acks, pending, now, live.Keys)
    {
      var s :| s in todo;
      var set_ := pending[s];
      ghost var seen := live.Keys;
      todo := todo - {s};
      if set_.IsStale(now) {
        stale := stale + {s};
        NoAckNext(acks, pending, now, seen, s);
      } else if set_.Due(now) {
        var ack;
        ghost var lead;
        ack, lead := GenerateAck(s, set_);
        assert set_.state.Incomplete? && ack.None? ==>
          !Fits(set_.state.fragments.Keys, set_.state.fragments[lead].fragTotal);
        if ack.None? {
          return None, live, stale;
        }
        AcksNext(acks, pending, now, seen, s, ack.value);
        acks := acks + [(s, ack.value)];
        set_ := set_.AckSent(now);
      } else {
        NoAckNext(acks, pending, now, seen, s);
      }
      live := live[s := set_];
      assert live.Keys == seen + {s};
    }
    return Some(acks), live, stale;
  }

  ghost predicate FullWith(m: map<u8, Fragment>, f: Fragment) {
    f.fragId in m && m[f.fragId] == f && |m| > f.fragTotal
  }

  lemma StoreKeepsValid(pending: Pending, f: Fragment, set_: AssemblySet)
    requires ValidPending(pending) && WellFormed(f)
    requires set_.state.Incomplete? ==> set_.state.fragments == Gathered(Lookup(pending, f.seqId), f)
    requires set_.state.Complete? || f.seqId !in pending || pending[f.seqId].state.Incomplete?
    ensures ValidPending(pending[f.seqId := set_])
  {
    if set_.state.Incomplete? {
      assert f.fragId in set_.state.fragments;
      if f.seqId in pending { assert ValidSet(f.seqId, pending[f.seqId]); }
    }
  }

  /** Joins, and if need be opens, the message of a full set. */
  method Rebuild(m: map<u8, Fragment>, s: u32, cipher: Option<Cipher>, ghost f: Fragment)
    returns (r: Option<seq<byte>>, lead: Fragment)
    requires AllFiled(m, s) && FullWith(m, f) && |m| <= 0x100
    ensures lead in m.Values && r == Transformed(m, s, cipher, lead)
  {
    var first :| first in m;
    lead := m[first];
    if exists id :: id in m && m[id].fragTotal != lead.fragTotal {
      return None, lead;
    }
    var bytes := JoinFull(m, s, f, lead);
    if !IsEncrypted(lead.flags) {
      return Some(bytes), lead;
    }
    if cipher.None? {
      return None, lead;
    }
    return cipher.value(s, bytes), lead;
  }

  /** Joins a full set whose totals agree; joining neither fails nor panics. */
  method JoinFull(m: map<u8, Fragment>, s: u32, ghost f: Fragment, lead: Fragment) returns (bytes: seq<byte>)
    requires AllFiled(m, s) && FullWith(m, f) && |m| <= 0x100
    requires forall id :: id in m ==> m[id].fragTotal == lead.fragTotal
    ensures bytes == Joined(m, |m|)
  {
    FullSetHasEveryId(m, s, f, lead);
    var values := Values(m);
    NeitherRejectedNorPanics(m, s, values, lead);
    var built := BuildDataFromFragments(values);
    return built.bytes;
  }

  /**
   * Generates the acknowledgement of a set. The fragment the hash map yields first, under `lead`,
   * decides its length; a panic means that some id has no bit in a bitmap of that length.
   */
  method GenerateAck(s: u32, set_: AssemblySet) returns (r: Option<Bitmap>, ghost lead: u8)
    requires ValidSet(s, set_)
    ensures set_.state.Complete? ==> r == Some(CreateComplete(set_.state.fragTotal))
    ensures set_.state.Incomplete? ==> lead in set_.state.fragments
    ensures set_.state.Incomplete? ==> r == AckUnder(set_.state.fragments.Keys, set_.state.fragments[lead].fragTotal)
  {
    lead := 0;
    match set_.state
    case Complete(_, fragTotal) =>
      r := Some(CreateComplete(fragTotal));
    case Incomplete(m) =>
      var first :| first in m;
      lead := first;
      var keys: seq<u8> := [];
      var todo := m.Keys;
      while todo != {}
        invariant todo <= m.Keys
        invariant forall id :: id in keys <==> id in m && id !in todo
      {
        var id :| id in todo;
        keys := keys + [id];
        todo := todo - {id};
      }
      assert IdSet(keys) == m.Keys;
      r := CreateFromFragIds(keys, m[first].fragTotal);
  }

  ghost function AckUnder(ids: set<u8>, fragTotal: u8): Option<Bitmap> {
    if Fits(ids, fragTotal) then Some(BitmapOf(ids, fragTotal)) else None
  }

  lemma NoAckNext(acks: seq<(u32, Bitmap)>, pending: Pending, now: nat, seen: set<u32>, s: u32)
    requires seen + {s} <= pending.Keys && AcksOf(acks, pending, now, seen) && !pending[s].Due(now)
    ensures AcksOf(acks, pending, now, seen + {s})
  {}

  lemma AcksNext(acks: seq<(u32, Bitmap)>, pending: Pending, now: nat, seen: set<u32>, s: u32, ack: Bitmap)
    requires seen + {s} <= pending.Keys && s !in seen
    requires AcksOf(acks, pending, now, seen) && pending[s].Due(now) && pending[s].MayAcknowledge(ack)
    ensures AcksOf(acks + [(s, ack)], pending, now, seen + {s})
  {
    var next := acks + [(s, ack)];
    forall t | t in seen + {s} && pending[t].Due(now) ensures exists i :: 0 <= i < |next| && next[i].0 == t {
      if t == s {
        assert next[|acks|].0 == t;
      } else {
        var i :| 0 <= i < |acks| && acks[i].0 == t;
        assert next[i].0 == t;
      }
    }
  }

  /** On the push path neither the error nor a panic of joining can happen once the totals agree. */
  lemma NeitherRejectedNorPanics(m: map<u8, Fragment>, s: u32, values: seq<Fragment>, lead: Fragment)
    requires AllFiled(m, s) && forall id :: id in m ==> m[id].fragTotal == lead.fragTotal
    requires |m| == lead.fragTotal + 1 && m.Keys == Below(|m|)
    requires |values| == |m| && ById(values) == m && DistinctIds(values)
    ensures Placeable(values)
    ensures 0 in ById(values) && ById(values)[0].fragTotal + 1 == |values|
  {
    assert 0 in Below(|m|);
    forall i | 0 <= i < |values| ensures values[i].fragId < |values| {
      ByIdHolds(values, values[i]);
      assert values[i].fragId in Below(|m|);
    }
  }
}
