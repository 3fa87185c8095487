/**
 * One encrypted message between a sender and a receiver, in a release build, over a network that may
 * lose, repeat and reorder every packet.
 */
module SealedDelivery {
  import opened Prelude
  import opened AckBitmap
  import opened Fragmentation
  import opened Assembler
  import opened SentData
  import opened Sealed
  import opened SealedRuns

  /** The message `data`, sent under `s` as the sealed bytes. */
  datatype Sealing = Sealing(s: u32, data: seq<byte>, sealed: seq<byte>, options: SendOptions)
  {
    predicate Valid() { Sendable(sealed) && |sealed| == |data| + TAG_SIZE }

    predicate IsKind(f: Fragment) { Kind(f, s, data, sealed, options) }
  }

  /** `fragments` and `acks` are all the packets ever sent; `crashed` and `panicked` are the ends of the two sides. */
  datatype State = State(
    tracked: Option<SentSet>,
    crashed: bool,
    pending: Pending,
    outputs: seq<Message>,
    panicked: bool,
    fragments: set<Fragment>,
    acks: set<Bitmap>)

  datatype Step =
    | SenderTick(now: nat)
    | DeliverFragment(f: Fragment, now: nat, cipher: Option<Cipher>, lead: Fragment)
    | DeliverAck(ack: Bitmap, now: nat)
    | ReceiverTick(now: nat, generated: seq<(u32, Bitmap)>)
    | ReceiverPanic(now: nat)

  function AsSet<T>(elements: seq<T>): set<T> { set x | x in elements }

  function Acks(generated: seq<(u32, Bitmap)>): set<Bitmap> { set a | a in generated :: a.1 }

  /** The message has just been sent. */
  function Start(c: Sealing): State
    requires Sendable(c.sealed)
  {
    State(if c.options.key then Some(SealedSet(c.data, c.sealed, 0, c.options)) else None, false, map[], [], false,
          AsSet(FragmentsOf(c.sealed, c.s, SealedFlags(c.options))), {})
  }

  /** The sender's tick: the message is dropped, left alone, repaired, or its repair panics. */
  function AfterSenderTick(c: Sealing, st: State, now: nat): State {
    match st.tracked
    case None => st
    case Some(x) =>
      if x.Dropped(now) then st.(tracked := None)
      else if !x.Resends(now) then st
      else
        match RepairOf(x, c.s, false)
        case Crashed => st.(crashed := true)
        case Repaired(sent) => st.(tracked := Some(x.AfterResend(now)), fragments := st.fragments + AsSet(sent))
  }

  ghost predicate Next(c: Sealing, st: State, step: Step, st': State) {
    match step
    case SenderTick(now) => !st.crashed && st' == AfterSenderTick(c, st, now)
    case DeliverFragment(f, now, cipher, lead) =>
      && !st.panicked && f in st.fragments
      && (cipher.Some? ==> Authentic(cipher.value, c.s, c.data, c.sealed))
      && lead in Gathered(Lookup(st.pending, f.seqId), f).Values
      && st' == st.(pending := PushPending(st.pending, f, now, cipher, lead),
                    outputs := st.outputs + PushOutput(st.pending, f, now, cipher, lead))
    case DeliverAck(ack, now) =>
      && !st.crashed && ack in st.acks
      && st' == if st.tracked.Some? then st.(tracked := Some(st.tracked.value.AckReceived(ack, now))) else st
    case ReceiverTick(now, generated) =>
      && !st.panicked
      && AcksOf(generated, st.pending, now, st.pending.Keys)
      && st' == st.(pending := TickPending(st.pending, now), acks := st.acks + Acks(generated))
    case ReceiverPanic(now) =>
      && !st.panicked
      && (exists s :: s in st.pending && st.pending[s].Due(now) && st.pending[s].MayPanic())
      && st' == st.(panicked := true)
  }

  datatype Run = Run(c: Sealing, states: seq<State>, steps: seq<Step>)
  {
    ghost predicate Valid() {
      && c.Valid() && |states| == |steps| + 1
      && states[0] == Start(c)
      && forall k :: 0 <= k < |steps| ==> StepsTo(k)
    }

    ghost predicate StepsTo(k: nat)
      requires k < |steps| < |states|
    {
      Next(c, states[k], steps[k], states[k + 1])
    }

    predicate Of(data: seq<byte>, sealed: seq<byte>) { c.data == data && c.sealed == sealed }
  }

  // ----- The invariant -----

  ghost predicate NetworkInv(c: Sealing, fragments: set<Fragment>) {
    forall f :: f in fragments ==> c.IsKind(f)
  }

  /**
   * The only set is that of the message; while incomplete it is not empty, and no fragment in it is a message
   * by itself.
   */
  ghost predicate PendingInv(c: Sealing, pending: Pending) {
    && (forall s :: s in pending ==> s == c.s)
    && Gathers(pending, c.s, c.data, c.sealed, c.options)
    && (c.s in pending && pending[c.s].state.Incomplete? ==> Partial(pending[c.s].state.fragments))
  }

  predicate Partial(m: map<u8, Fragment>) {
    m != map[] && forall id :: id in m ==> m[id].fragId == id && m[id].fragTotal > 0
  }

  ghost predicate SenderInv(c: Sealing, tracked: Option<SentSet>) {
    tracked.Some? ==> c.options.key && Keeps(tracked.value, c.data, c.sealed, c.options)
  }

  ghost predicate Inv(c: Sealing, st: State) {
    NetworkInv(c, st.fragments) && PendingInv(c, st.pending) && SenderInv(c, st.tracked)
  }

  lemma SenderTickKeeps(c: Sealing, st: State, now: nat)
    requires c.Valid() && NetworkInv(c, st.fragments) && SenderInv(c, st.tracked)
    ensures var st' := AfterSenderTick(c, st, now);
      NetworkInv(c, st'.fragments) && SenderInv(c, st'.tracked) && st'.pending == st.pending
        && st'.outputs == st.outputs
    ensures AfterSenderTick(c, st, now).crashed && !st.crashed ==> c.data == []
  {
    hide FragmentsOf;
    hide Kind;
    if st.tracked.Some? {
      var x := st.tracked.value;
      var sent := SentBy(RepairOf(x, c.s, false));
      forall f | f in sent ensures c.IsKind(f) { RepairedIsKind(c, x, f); }
      SendableLimit(c.data);
      SendableLimit(c.sealed);
    }
  }

  lemma RepairedIsKind(c: Sealing, x: SentSet, f: Fragment)
    requires Sendable(c.sealed) && Keeps(x, c.data, c.sealed, c.options) && f in SentBy(RepairOf(x, c.s, false))
    ensures c.IsKind(f)
  {
    RepairingIsPart(f, c.s, c.data, c.sealed, c.options);
  }

  lemma PushKeeps(c: Sealing, pending: Pending, f: Fragment, now: nat, cipher: Option<Cipher>, lead: Fragment)
    requires PendingInv(c, pending) && c.IsKind(f)
    ensures PendingInv(c, PushPending(pending, f, now, cipher, lead))
  {
    hide Kind;
    hide Gathers;
    hide Transformed;
    KindSeqId(c, f);
    PushGathers(pending, f, now, cipher, lead, c.s, c.data, c.sealed, c.options);
    var m := Gathered(Lookup(pending, f.seqId), f);
    assert f.fragId in m;
  }

  lemma KindSeqId(c: Sealing, f: Fragment)
    requires c.IsKind(f)
    ensures f.seqId == c.s && WellFormed(f)
  {}

  lemma StartKeeps(c: Sealing)
    requires c.Valid()
    ensures Inv(c, Start(c))
  {
    hide Kind;
    forall f | f in FragmentsOf(c.sealed, c.s, SealedFlags(c.options)) ensures c.IsKind(f) { FirstIsKind(c, f); }
  }

  lemma FirstIsKind(c: Sealing, f: Fragment)
    requires Sendable(c.sealed) && f in FragmentsOf(c.sealed, c.s, SealedFlags(c.options))
    ensures c.IsKind(f)
  {
    FirstIsPart(f, c.s, c.sealed, c.options);
  }

  lemma NextKeepsInv(c: Sealing, st: State, step: Step, st': State)
    requires c.Valid() && Inv(c, st) && Next(c, st, step, st')
    ensures Inv(c, st')
  {
    hide Kind;
    match step
    case SenderTick(now) => SenderTickKeeps(c, st, now);
    case DeliverFragment(f, now, cipher, lead) => PushKeeps(c, st.pending, f, now, cipher, lead);
    case DeliverAck(_, _) =>
    case ReceiverTick(now, _) => TickGathers(st.pending, now, c.s, c.data, c.sealed, c.options);
    case ReceiverPanic(_) =>
  }

  lemma {:induction false} RunKeepsInv(r: Run, k: nat)
    requires r.Valid() && k < |r.states|
    ensures Inv(r.c, r.states[k])
  {
    hide Inv;
    if k > 0 {
      RunKeepsInv(r, k - 1);
      assert r.StepsTo(k - 1);
      NextKeepsInv(r.c, r.states[k - 1], r.steps[k - 1], r.states[k]);
    } else {
      StartKeeps(r.c);
    }
  }

  // ----- Runs that go wrong -----

  lemma Extend(r: Run, step: Step, st: State) returns (r': Run)
    requires r.Valid() && Next(r.c, r.states[|r.steps|], step, st)
    ensures r'.Valid() && r' == Run(r.c, r.states + [st], r.steps + [step])
  {
    r' := Run(r.c, r.states + [st], r.steps + [step]);
    forall k | 0 <= k < |r'.steps| ensures r'.StepsTo(k) {
      if k < |r.steps| { assert r.StepsTo(k); }
    }
  }

  const OPTIONS := SendOptions(0, None, true)

  function Example(data: seq<byte>, sealed: seq<byte>): Sealing { Sealing(0, data, sealed, OPTIONS) }

  function Tracked(c: Sealing): SentSet
    requires Sendable(c.sealed)
  {
    SealedSet(c.data, c.sealed, 0, c.options)
  }

  /** Sent and repaired once at time 0; the receiver's sets and outputs are as given. */
  function AfterRepair(c: Sealing, pending: Pending, outputs: seq<Message>): State
    requires Sendable(c.sealed) && Sendable(c.data)
  {
    State(Some(Tracked(c)), false, pending, outputs, false,
          AsSet(FragmentsOf(c.sealed, c.s, SealedFlags(c.options)))
            + AsSet(FragmentsOf(c.data, c.s, PlainFlags(c.options))), {})
  }

  lemma RepairedAtOnce(data: seq<byte>, sealed: seq<byte>) returns (r: Run)
    requires Example(data, sealed).Valid() && data != []
    ensures Sendable(data) && r.Valid() && r.c == Example(data, sealed)
    ensures r.states[|r.steps|] == AfterRepair(r.c, map[], [])
  {
    hide FragmentsOf;
    var c := Example(data, sealed);
    SendableLimit(data);
    SendableLimit(sealed);
    var x := Tracked(c);
    assert x.Resends(0) && !x.Dropped(0) && x.AfterResend(0) == x;
    r := Extend(Run(c, [Start(c)], []), SenderTick(0), AfterRepair(c, map[], []));
  }

  lemma KindArrives(c: Sealing, f: Fragment)
    requires c.Valid() && Sendable(c.data) && c.IsKind(f)
    ensures f in AfterRepair(c, map[], []).fragments
  {
    FirstIsPart(f, c.s, c.sealed, c.options);
    if Part(f, c.s, c.data, PlainFlags(c.options)) {
      assert f == FragmentsOf(c.data, c.s, PlainFlags(c.options))[f.fragId];
    }
  }

  /** The first `n` fragments as first sent. */
  function Firsts(c: Sealing, n: nat): map<u8, Fragment>
    requires Sendable(c.sealed) && n <= 0x100
  {
    if n == 0 then map[] else Firsts(c, n - 1)[n - 1 := FragmentAt(c.sealed, c.s, SealedFlags(c.options), n - 1)]
  }

  lemma {:induction false} FirstsHold(c: Sealing, n: nat)
    requires Sendable(c.sealed) && n <= 0x100
    ensures Firsts(c, n).Keys == Below(n) && |Firsts(c, n)| == n
    ensures forall id :: id in Firsts(c, n) ==>
      Firsts(c, n)[id] == FragmentAt(c.sealed, c.s, SealedFlags(c.options), id)
  {
    hide FragmentAt;
    if n > 0 { FirstsHold(c, n - 1); }
    assert |Firsts(c, n)| == |Firsts(c, n).Keys|;
  }

  /** The set of the message, if it holds anything. */
  function Holding(c: Sealing, m: map<u8, Fragment>): Pending {
    if m == map[] then map[] else Opened(c.s, m, SealedFlags(c.options))
  }

  function Opener(c: Sealing): Cipher {
    (t, b) => if b == c.sealed then Some(c.data) else None
  }

  /** One more fragment arrives and does not fill the set. */
  lemma Filed(c: Sealing, r: Run, m: map<u8, Fragment>, f: Fragment) returns (r': Run)
    requires c.Valid() && Sendable(c.data) && r.Valid() && r.c == c
    requires r.states[|r.steps|] == AfterRepair(c, Holding(c, m), [])
    requires c.IsKind(f) && |m[f.fragId := f]| <= f.fragTotal && (m == map[] ==> f.flags == SealedFlags(c.options))
    ensures r'.Valid() && r'.c == c && r'.states[|r'.steps|] == AfterRepair(c, Holding(c, m[f.fragId := f]), [])
  {
    hide FragmentsOf;
    hide Kind;
    hide PushPending;
    hide PushOutput;
    hide Gathered;
    KindSeqId(c, f);
    KindArrives(c, f);
    FiledOnly(Holding(c, m), c.s, m, SealedFlags(c.options), f, Opener(c));
    r' := Extend(r, DeliverFragment(f, 0, Some(Opener(c)), f), AfterRepair(c, Holding(c, m[f.fragId := f]), []));
  }

  lemma FirstKind(c: Sealing, id: u8)
    requires c.Valid() && id <= FragTotal(c.sealed)
    ensures var f := FragmentAt(c.sealed, c.s, SealedFlags(c.options), id);
      c.IsKind(f) && f.fragId == id && f.fragTotal == FragTotal(c.sealed) && f.flags == SealedFlags(c.options)
  {}

  lemma PlainKind(c: Sealing, id: u8)
    requires c.Valid() && Sendable(c.data) && id <= FragTotal(c.data)
    ensures var f := FragmentAt(c.data, c.s, PlainFlags(c.options), id);
      c.IsKind(f) && f.fragId == id && f.fragTotal == FragTotal(c.data)
  {}

  lemma {:induction false} FirstsArrive(data: seq<byte>, sealed: seq<byte>, n: nat) returns (r: Run)
    requires Example(data, sealed).Valid() && data != [] && n <= FragTotal(sealed)
    ensures Sendable(data) && r.Valid() && r.c == Example(data, sealed)
    ensures r.states[|r.steps|] == AfterRepair(r.c, Holding(r.c, Firsts(r.c, n)), [])
  {
    hide AfterRepair;
    hide FragmentAt;
    var c := Example(data, sealed);
    if n == 0 {
      r := RepairedAtOnce(data, sealed);
    } else {
      r := FirstsArrive(data, sealed, n - 1);
      var f := FragmentAt(sealed, 0, SealedFlags(OPTIONS), n - 1);
      FirstKind(c, n - 1);
      FirstsHold(c, n);
      FirstsHold(c, n - 1);
      r := Filed(c, r, Firsts(c, n - 1), f);
    }
  }

  lemma HoldingNothing(c: Sealing)
    ensures Holding(c, map[]) == map[]
  {}

  // ----- The sender never panics, but for an empty message -----

  /** In no run of the message does the sender's tick panic. */
  ghost predicate SenderPanicFree(data: seq<byte>, sealed: seq<byte>) {
    forall r: Run, k: nat :: r.Valid() && r.Of(data, sealed) && k < |r.states| ==> !r.states[k].crashed
  }

  /** An encrypted message can make the sender panic exactly when it is empty. */
  lemma SenderPanicFreeExactly(data: seq<byte>, sealed: seq<byte>)
    requires Sendable(sealed) && |sealed| == |data| + TAG_SIZE
    ensures SenderPanicFree(data, sealed) <==> data != []
  {
    if data == [] {
      var c := Example(data, sealed);
      var r := Extend(Run(c, [Start(c)], []), SenderTick(0), AfterSenderTick(c, Start(c), 0));
      assert Tracked(c).Resends(0) && !Tracked(c).Dropped(0);
      assert r.Of(data, sealed) && r.states[1].crashed;
    } else {
      forall r: Run, k: nat | r.Valid() && r.Of(data, sealed) && k < |r.states| ensures !r.states[k].crashed {
        NeverCrashes(r, k);
      }
    }
  }

  lemma {:induction false} NeverCrashes(r: Run, k: nat)
    requires r.Valid() && r.c.data != [] && k < |r.states|
    ensures !r.states[k].crashed
  {
    hide AfterSenderTick;
    hide Next;
    if k > 0 {
      NeverCrashes(r, k - 1);
      RunKeepsInv(r, k - 1);
      assert r.StepsTo(k - 1);
      StepCrashes(r.c, r.states[k - 1], r.steps[k - 1], r.states[k]);
    }
  }

  lemma StepCrashes(c: Sealing, st: State, step: Step, st': State)
    requires c.Valid() && Inv(c, st) && Next(c, st, step, st') && !st.crashed && c.data != []
    ensures !st'.crashed
  {
    hide AfterSenderTick;
    hide AcksOf;
    hide PushPending;
    hide PushOutput;
    hide TickPending;
    hide Gathered;
    if step.SenderTick? { SenderTickKeeps(c, st, step.now); }
  }
}
