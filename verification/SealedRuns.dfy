/**
 * Encrypted messages over whole runs of the receiver: for which lengths every full set is read as the
 * message, and for which lengths wrong bytes can be delivered.
 */
module SealedRuns {
  import opened Prelude
  import opened AckBitmap
  import opened Fragmentation
  import opened Assembler
  import opened SentData
  import opened Sealed
  import opened AssemblerRuns

  // ----- What the sender of an encrypted message sends -----

  /** A fragment of the sealed message, as first sent. */
  predicate First(f: Fragment, s: u32, sealed: seq<byte>, options: SendOptions) {
    Sendable(sealed) && f in FragmentsOf(sealed, s, SealedFlags(options))
  }

  /** What the tracker keeps of the message at any time. */
  predicate Keeps(set_: SentSet, data: seq<byte>, sealed: seq<byte>, options: SendOptions) {
    Sendable(sealed) && set_.data == data && set_.fragTotal == FragTotal(sealed)
    && (set_.expiration.Some? <==> options.expiration.Some?)
  }

  /** Acknowledgements and repair rounds do not change it. */
  lemma KeptThroughout(set_: SentSet, data: seq<byte>, sealed: seq<byte>, options: SendOptions, now: nat, ack: Bitmap)
    requires Sendable(sealed)
    ensures Keeps(SealedSet(data, sealed, now, options), data, sealed, options)
    ensures Keeps(set_, data, sealed, options) ==> Keeps(set_.AckReceived(ack, now), data, sealed, options)
    ensures Keeps(set_, data, sealed, options) ==> Keeps(set_.AfterResend(now), data, sealed, options)
  {}

  function SentBy(repair: Repair): seq<Fragment> {
    match repair
    case Crashed => []
    case Repaired(sent) => sent
  }

  /** A fragment that some repair round of the message sends. */
  ghost predicate Repairing(f: Fragment, s: u32, data: seq<byte>, sealed: seq<byte>, options: SendOptions) {
    exists set_: SentSet :: Keeps(set_, data, sealed, options) && f in SentBy(RepairOf(set_, s, false))
  }

  function PlainFlags(options: SendOptions): SetFlags {
    SetFlag(NO_FLAGS, IS_EXPIRE_BIT, options.expiration.Some?)
  }

  predicate Part(f: Fragment, s: u32, message: seq<byte>, flags: SetFlags) {
    Sendable(message) && f.fragId <= FragTotal(message) && f == FragmentAt(message, s, flags, f.fragId)
  }

  lemma FirstIsPart(f: Fragment, s: u32, sealed: seq<byte>, options: SendOptions)
    ensures First(f, s, sealed, options) <==> Part(f, s, sealed, SealedFlags(options))
  {
    if Part(f, s, sealed, SealedFlags(options)) {
      assert f == FragmentsOf(sealed, s, SealedFlags(options))[f.fragId];
    }
  }

  /** The repaired fragments are exactly the fragments of the plain message, without the encryption flag. */
  lemma RepairingIsPart(f: Fragment, s: u32, data: seq<byte>, sealed: seq<byte>, options: SendOptions)
    requires Sendable(sealed)
    ensures Repairing(f, s, data, sealed, options) <==> Part(f, s, data, PlainFlags(options))
  {
    if Repairing(f, s, data, sealed, options) {
      var set_ :| Keeps(set_, data, sealed, options) && f in SentBy(RepairOf(set_, s, false));
      RoundIsPlain(set_, s, f);
    }
    if Part(f, s, data, PlainFlags(options)) {
      var set_ := SealedSet(data, sealed, 0, options);
      assert f == FragmentsOf(data, s, ResendFlags(set_))[f.fragId];
      assert Keeps(set_, data, sealed, options) && f in SentBy(RepairOf(set_, s, false));
    }
  }

  lemma RoundIsPlain(set_: SentSet, s: u32, f: Fragment)
    requires f in SentBy(RepairOf(set_, s, false))
    ensures Part(f, s, set_.data, ResendFlags(set_))
  {
    var all := FragmentsOf(set_.data, s, ResendFlags(set_));
    if set_.lastReceivedAck.Some? {
      var ids := RoundIds(set_);
      var i :| 0 <= i < |ids| && Pick(all, ids)[i] == f;
      assert ids[i] in ids && f == all[ids[i]];
    }
  }

  function RoundIds(set_: SentSet): (ids: seq<u8>)
    requires Sendable(set_.data) && set_.lastReceivedAck.Some?
    ensures forall id :: id in ids ==> id <= FragTotal(set_.data)
  {
    MissingInRange(set_.lastReceivedAck.value.ack, FragTotal(set_.data));
    MissingIds(set_.lastReceivedAck.value.ack, FragTotal(set_.data))
  }

  // ----- Runs fed with the message -----

  /** The step pushes a first or a repaired fragment of the message, and the shared secret is there. */
  ghost predicate Arrives(step: Step, s: u32, data: seq<byte>, sealed: seq<byte>, options: SendOptions)
    requires step.Pushed?
  {
    && (First(step.f, s, sealed, options) || Repairing(step.f, s, data, sealed, options))
    && step.cipher.Some? && Authentic(step.cipher.value, s, data, sealed)
  }

  /** Everything that arrives under `s` is a first or a repaired fragment of one message. */
  ghost predicate Fed(r: Run, s: u32, data: seq<byte>, sealed: seq<byte>, options: SendOptions) {
    && r.Valid()
    && forall k :: 0 <= k < |r.steps| && r.steps[k].Pushed? && r.steps[k].f.seqId == s ==>
         Arrives(r.steps[k], s, data, sealed, options)
  }

  /** Step `k` pushes a fragment that fills the set of `s`. */
  predicate Completes(r: Run, k: nat, s: u32)
    requires k < |r.steps| < |r.states|
  {
    r.steps[k].Pushed? && r.steps[k].f.seqId == s && Fills(Lookup(r.states[k], s), r.steps[k].f)
  }

  /** Every full set of the message is read as the message. */
  ghost predicate AlwaysRead(s: u32, data: seq<byte>, sealed: seq<byte>, options: SendOptions) {
    forall r: Run, k: nat :: Fed(r, s, data, sealed, options) && k < |r.steps| && Completes(r, k, s) ==>
      r.outputs[k] == [(s, data)]
  }

  /** Nothing but the message is ever output under its id. */
  ghost predicate NeverWrong(s: u32, data: seq<byte>, sealed: seq<byte>, options: SendOptions) {
    forall r: Run, k: nat, m: Message ::
      Fed(r, s, data, sealed, options) && k < |r.outputs| && m in r.outputs[k] && m.0 == s ==> m.1 == data
  }

  predicate Kind(f: Fragment, s: u32, data: seq<byte>, sealed: seq<byte>, options: SendOptions) {
    Part(f, s, sealed, SealedFlags(options)) || Part(f, s, data, PlainFlags(options))
  }

  ghost predicate Gathers(pending: Pending, s: u32, data: seq<byte>, sealed: seq<byte>, options: SendOptions) {
    s in pending && pending[s].state.Incomplete? ==>
      forall id :: id in pending[s].state.fragments ==> Kind(pending[s].state.fragments[id], s, data, sealed, options)
  }

  lemma PushGathers(pending: Pending, f: Fragment, now: nat, cipher: Option<Cipher>, lead: Fragment,
                    s: u32, data: seq<byte>, sealed: seq<byte>, options: SendOptions)
    requires Gathers(pending, s, data, sealed, options)
    requires f.seqId == s ==> Kind(f, s, data, sealed, options)
    ensures Gathers(PushPending(pending, f, now, cipher, lead), s, data, sealed, options)
  {
    hide Kind;
    hide Transformed;
  }

  lemma TickGathers(pending: Pending, now: nat, s: u32, data: seq<byte>, sealed: seq<byte>, options: SendOptions)
    requires Gathers(pending, s, data, sealed, options)
    ensures Gathers(TickPending(pending, now), s, data, sealed, options)
  {
    hide Kind;
  }

  lemma {:induction false} FedGathers(r: Run, s: u32, data: seq<byte>, sealed: seq<byte>, options: SendOptions, k: nat)
    requires Sendable(sealed) && Fed(r, s, data, sealed, options) && k < |r.states|
    ensures Gathers(r.states[k], s, data, sealed, options)
  {
    hide Kind;
    hide PushPending;
    hide TickPending;
    if k > 0 {
      FedGathers(r, s, data, sealed, options, k - 1);
      assert r.Steps(k - 1);
      match r.steps[k - 1]
      case Pushed(f, now, cipher, lead) =>
        if f.seqId == s { FedKind(r, s, data, sealed, options, k - 1); }
        PushGathers(r.states[k - 1], f, now, cipher, lead, s, data, sealed, options);
      case Ticked(now) => TickGathers(r.states[k - 1], now, s, data, sealed, options);
    }
  }

  lemma FedKind(r: Run, s: u32, data: seq<byte>, sealed: seq<byte>, options: SendOptions, k: nat)
    requires Sendable(sealed) && Fed(r, s, data, sealed, options)
    requires k < |r.steps| && r.steps[k].Pushed? && r.steps[k].f.seqId == s
    ensures Kind(r.steps[k].f, s, data, sealed, options)
  {
    FirstIsPart(r.steps[k].f, s, sealed, options);
    RepairingIsPart(r.steps[k].f, s, data, sealed, options);
  }

  /** A full set of fragments of one kind is read as the message. */
  lemma UniformReads(m: map<u8, Fragment>, s: u32, data: seq<byte>, sealed: seq<byte>, options: SendOptions,
                     cipher: Cipher,
                     lead: Fragment, message: seq<byte>, flags: SetFlags)
    requires Sendable(message) && m.Keys == Below(FragTotal(message) + 1) && lead in m.Values && AllFiled(m, s)
    requires forall id :: id in m ==> Part(m[id], s, message, flags)
    requires (message == data && !IsEncrypted(flags)) || (message == sealed && IsEncrypted(flags))
    requires Authentic(cipher, s, data, sealed)
    ensures |m| <= 0x100 && Transformed(m, s, Some(cipher), lead) == Some(data)
  {
    hide Chunk;
    hide IsEncrypted;
    assert |m| == |m.Keys|;
    var ids := Below(FragTotal(message) + 1);
    assert forall i: u8 :: i <= FragTotal(message) ==> i in ids;
    JoinedWhole(m, message);
  }

  lemma KindTotal(f: Fragment, s: u32, data: seq<byte>, sealed: seq<byte>, options: SendOptions)
    requires Kind(f, s, data, sealed, options)
    ensures Part(f, s, sealed, SealedFlags(options)) ==> Sendable(sealed) && f.fragTotal == FragTotal(sealed)
    ensures !Part(f, s, sealed, SealedFlags(options)) ==> Sendable(data) && f.fragTotal == FragTotal(data)
    ensures |data| <= |sealed| <= MAX_FRAGMENT_INNER_SIZE ==> f.fragTotal == 0
  {}

  /** What a full set of fragments of the message is read as, if its length is short or crosses a fragment. */
  lemma FullReads(m: map<u8, Fragment>, s: u32, data: seq<byte>, sealed: seq<byte>, options: SendOptions,
                  cipher: Cipher,
                  f: Fragment, lead: Fragment)
    requires Sendable(sealed) && |sealed| == |data| + TAG_SIZE && Authentic(cipher, s, data, sealed)
    requires AllFiled(m, s) && FullWith(m, f) && lead in m.Values
    requires forall id :: id in m ==> Kind(m[id], s, data, sealed, options)
    ensures |m| <= 0x100
    ensures |sealed| <= MAX_FRAGMENT_INNER_SIZE ==> Transformed(m, s, Some(cipher), lead) == Some(data)
    ensures CrossesFragment(|data|) ==> Transformed(m, s, Some(cipher), lead) in {None, Some(data)}
  {
    hide Kind;
    hide Part;
    hide CrossesFragment;
    AtMost256(m);
    forall id | id in m && |sealed| <= MAX_FRAGMENT_INNER_SIZE ensures m[id].fragTotal == lead.fragTotal == 0 {
      KindTotal(m[id], s, data, sealed, options);
      KindTotal(lead, s, data, sealed, options);
    }
    if forall id :: id in m ==> m[id].fragTotal == lead.fragTotal {
      FullSetHasEveryId(m, s, f, lead);
      OneKind(m, s, data, sealed, options, lead);
      if |sealed| <= MAX_FRAGMENT_INNER_SIZE || CrossesFragment(|data|) {
        KindTotal(lead, s, data, sealed, options);
        if Part(lead, s, sealed, SealedFlags(options)) {
          UniformReads(m, s, data, sealed, options, cipher, lead, sealed, SealedFlags(options));
        } else {
          UniformReads(m, s, data, sealed, options, cipher, lead, data, PlainFlags(options));
        }
      }
    }
  }

  /** Where the totals or a single fragment tell the kinds apart, fragments with one total are of one kind. */
  lemma OneKind(m: map<u8, Fragment>, s: u32, data: seq<byte>, sealed: seq<byte>, options: SendOptions, lead: Fragment)
    requires Sendable(sealed) && |sealed| == |data| + TAG_SIZE && lead in m.Values
    requires forall id :: id in m ==> Kind(m[id], s, data, sealed, options) && m[id].fragTotal == lead.fragTotal
    requires |m| == lead.fragTotal + 1 && m.Keys == Below(|m|)
    ensures IsEncrypted(SealedFlags(options)) && !IsEncrypted(PlainFlags(options))
    ensures |sealed| <= MAX_FRAGMENT_INNER_SIZE || CrossesFragment(|data|) ==>
      forall id :: id in m ==>
        if Part(lead, s, sealed, SealedFlags(options)) then Part(m[id], s, sealed, SealedFlags(options))
        else Part(m[id], s, data, PlainFlags(options))
  {
    CrossingCounts(|data|);
  }

  /** Every step of a fed run outputs what its full set is read as. */
  lemma FedReads(r: Run, s: u32, data: seq<byte>, sealed: seq<byte>, options: SendOptions, k: nat)
    requires Sendable(sealed) && |sealed| == |data| + TAG_SIZE && Fed(r, s, data, sealed, options)
    requires k < |r.steps| && Completes(r, k, s)
    ensures |sealed| <= MAX_FRAGMENT_INNER_SIZE ==> r.outputs[k] == [(s, data)]
    ensures CrossesFragment(|data|) ==> r.outputs[k] in {[], [(s, data)]}
  {
    hide Kind;
    var f, lead, prev := r.steps[k].f, r.steps[k].lead, Lookup(r.states[k], s);
    var m := Gathered(prev, f);
    assert r.Steps(k);
    ReachableValid(r, k);
    FedGathers(r, s, data, sealed, options, k);
    FedKind(r, s, data, sealed, options, k);
    StoreKeepsValid(r.states[k], f, Filing(prev, f, 0));
    assert ValidSet(s, r.states[k][s := Filing(prev, f, 0)][s]);
    assert f.fragId in m;
    FullReads(m, s, data, sealed, options, r.steps[k].cipher.value, f, lead);
  }

  lemma OutputsOnlyWhenFull(r: Run, k: nat, s: u32, m: Message)
    requires r.Valid() && k < |r.steps| && m in r.outputs[k] && m.0 == s
    ensures Completes(r, k, s)
  {
    assert r.Steps(k);
  }

  // ----- A run that goes wrong -----

  function Sizes(data: seq<byte>): nat
    requires Sendable(data)
  {
    if FragTotal(data) == 0 then 1 else FragTotal(data)
  }

  /** The last fragment as first sent, and the first `n` repaired ones. */
  function Collected(s: u32, data: seq<byte>, sealed: seq<byte>, options: SendOptions, n: nat): map<u8, Fragment>
    requires Sendable(data) && Sendable(sealed) && n <= 0x100
  {
    if n == 0 then map[FragTotal(sealed) := FragmentAt(sealed, s, SealedFlags(options), FragTotal(sealed))]
    else Collected(s, data, sealed, options, n - 1)[n - 1 := FragmentAt(data, s, PlainFlags(options), n - 1)]
  }

  function KindAt(s: u32, data: seq<byte>, sealed: seq<byte>, options: SendOptions, repaired: bool, id: u8): Fragment
    requires Sendable(data) && Sendable(sealed)
  {
    if repaired then FragmentAt(data, s, PlainFlags(options), id) else FragmentAt(sealed, s, SealedFlags(options), id)
  }

  lemma {:induction false} CollectedHolds(s: u32, data: seq<byte>, sealed: seq<byte>, options: SendOptions, n: nat)
    requires Sendable(data) && Sendable(sealed) && n <= FragTotal(sealed)
    ensures |Collected(s, data, sealed, options, n)| == n + 1
    ensures forall id :: id in Collected(s, data, sealed, options, n) <==> 0 <= id < n || id == FragTotal(sealed)
    ensures forall id :: id in Collected(s, data, sealed, options, n) ==>
      Collected(s, data, sealed, options, n)[id] == KindAt(s, data, sealed, options, id < n, id)
  {
    hide FragmentAt;
    hide SealedFlags;
    hide PlainFlags;
    hide Sendable;
    hide FragTotal;
    if n > 0 { CollectedHolds(s, data, sealed, options, n - 1); }
  }

  function Opened(s: u32, m: map<u8, Fragment>, flags: SetFlags): Pending {
    map[s := AssemblySet(Incomplete(m), flags, None, 0, 0)]
  }

  /** A fragment that does not fill the set is filed. */
  lemma FiledOnly(pending: Pending, s: u32, m: map<u8, Fragment>, flags: SetFlags, f: Fragment, cipher: Cipher)
    requires f.seqId == s && pending == (if m == map[] then map[] else Opened(s, m, flags))
    requires (m == map[] ==> f.flags == flags)
    requires |m[f.fragId := f]| <= f.fragTotal
    ensures f in Gathered(Lookup(pending, s), f).Values
    ensures PushPending(pending, f, 0, Some(cipher), f) == Opened(s, m[f.fragId := f], flags)
    ensures PushOutput(pending, f, 0, Some(cipher), f) == []
  {
    var prev := Lookup(pending, s);
    assert Gathered(prev, f) == m[f.fragId := f];
    assert f.fragId in Gathered(prev, f) && Gathered(prev, f)[f.fragId] == f;
    assert Filing(prev, f, 0) == AssemblySet(Incomplete(m[f.fragId := f]), flags, None, 0, 0);
  }

  lemma Extended(r: Run, step: Step, pending: Pending, output: seq<Message>,
                 s: u32, data: seq<byte>, sealed: seq<byte>, options: SendOptions)
    returns (r': Run)
    requires Fed(r, s, data, sealed, options)
    requires step.Pushed? && WellFormed(step.f)
    requires step.lead in Gathered(Lookup(r.states[|r.steps|], step.f.seqId), step.f).Values
    requires step.f.seqId == s && Arrives(step, s, data, sealed, options)
    requires pending == PushPending(r.states[|r.steps|], step.f, step.now, step.cipher, step.lead)
    requires output == PushOutput(r.states[|r.steps|], step.f, step.now, step.cipher, step.lead)
    ensures Fed(r', s, data, sealed, options) && r' == Run(r.states + [pending], r.steps + [step], r.outputs + [output])
  {
    r' := Run(r.states + [pending], r.steps + [step], r.outputs + [output]);
    forall k | 0 <= k < |r'.steps| ensures r'.Steps(k) {
      if k < |r.steps| { assert r.Steps(k); }
    }
  }

  lemma SizesFit(data: seq<byte>, sealed: seq<byte>)
    requires Sendable(sealed) && |sealed| == |data| + TAG_SIZE > MAX_FRAGMENT_INNER_SIZE
    ensures Sendable(data) && 1 <= Sizes(data) <= FragTotal(sealed)
    ensures FragTotal(sealed) == FragTotal(data) + if CrossesFragment(|data|) then 1 else 0
  {
    CrossingCounts(|data|);
  }

  /** The first `n` steps are pushes under `s` that output nothing. */
  predicate Quiet(r: Run, n: nat, s: u32)
    requires n <= |r.steps| == |r.outputs|
  {
    forall k :: 0 <= k < n ==> r.steps[k].Pushed? && r.steps[k].f.seqId == s && r.outputs[k] == []
  }

  /** A fed run that has come so far as to hold the last fragment and the first `n` repaired ones. */
  ghost predicate Collecting(r: Run, s: u32, data: seq<byte>, sealed: seq<byte>, options: SendOptions, cipher: Cipher,
                             n: nat)
    requires Sendable(data) && Sendable(sealed) && n <= 0x100
  {
    && Fed(r, s, data, sealed, options) && Authentic(cipher, s, data, sealed) && Quiet(r, |r.steps|, s)
    && r.states[|r.steps|] == Opened(s, Collected(s, data, sealed, options, n), SealedFlags(options))
  }

  /** The last fragment arrives as first sent. */
  lemma CollectingStart(s: u32, data: seq<byte>, sealed: seq<byte>, options: SendOptions, cipher: Cipher)
    returns (r: Run)
    requires Sendable(sealed) && Sendable(data) && FragTotal(sealed) > 0 && Authentic(cipher, s, data, sealed)
    ensures Collecting(r, s, data, sealed, options, cipher, 0)
  {
    var flags, last := SealedFlags(options), FragTotal(sealed);
    var start := Run([map[]], [], []);
    var f := FragmentAt(sealed, s, flags, last);
    assert map[][last := f] == map[last := f];
    FiledOnly(map[], s, map[], flags, f, cipher);
    FirstIsPart(f, s, sealed, options);
    r := Extended(start, Pushed(f, 0, Some(cipher), f), Opened(s, map[last := f], flags), [], s, data, sealed, options);
  }

  /** The next repaired fragment arrives and does not fill the set. */
  lemma CollectingNext(s: u32, data: seq<byte>, sealed: seq<byte>, options: SendOptions, cipher: Cipher, n: nat, r: Run)
    returns (r': Run)
    requires Sendable(data) && Sendable(sealed) && n < FragTotal(data) <= FragTotal(sealed) && n + 2 <= FragTotal(data)
    requires Collecting(r, s, data, sealed, options, cipher, n)
    ensures Collecting(r', s, data, sealed, options, cipher, n + 1)
  {
    hide Chunk;
    hide PushPending;
    hide PushOutput;
    var m, f := Collected(s, data, sealed, options, n), FragmentAt(data, s, PlainFlags(options), n);
    CollectedHolds(s, data, sealed, options, n);
    CollectedHolds(s, data, sealed, options, n + 1);
    FiledOnly(Opened(s, m, SealedFlags(options)), s, m, SealedFlags(options), f, cipher);
    RepairingIsPart(f, s, data, sealed, options);
    r' := Extended(r, Pushed(f, 0, Some(cipher), f), Opened(s, m[n := f], SealedFlags(options)), [], s, data, sealed,
                   options);
  }

  /**
   * The last fragment arrives as first sent, then the repaired ones from the front, all but the one that
   * fills the set.
   */
  lemma {:induction false} CollectingRun(s: u32, data: seq<byte>, sealed: seq<byte>, options: SendOptions,
                                         cipher: Cipher, n: nat)
    returns (r: Run)
    requires Sendable(sealed) && |sealed| == |data| + TAG_SIZE > MAX_FRAGMENT_INNER_SIZE
    requires Authentic(cipher, s, data, sealed)
    requires Sendable(data) && n < Sizes(data) <= 0x100
    ensures Collecting(r, s, data, sealed, options, cipher, n)
  {
    hide Collecting;
    SizesFit(data, sealed);
    if n == 0 {
      r := CollectingStart(s, data, sealed, options, cipher);
    } else {
      r := CollectingRun(s, data, sealed, options, cipher, n - 1);
      r := CollectingNext(s, data, sealed, options, cipher, n - 1, r);
    }
  }

  /** What the set collected in this way is read as, starting from a repaired fragment. */
  lemma CollectedMisread(s: u32, data: seq<byte>, sealed: seq<byte>, options: SendOptions, cipher: Cipher,
                         m: map<u8, Fragment>, lead: Fragment)
    requires Sendable(sealed) && |sealed| == |data| + TAG_SIZE > MAX_FRAGMENT_INNER_SIZE
    requires Authentic(cipher, s, data, sealed)
    requires Sendable(data) && !CrossesFragment(|data|) && lead == FragmentAt(data, s, PlainFlags(options), 0)
    requires Sizes(data) <= 0x100 && m == Collected(s, data, sealed, options, Sizes(data)) && lead in m.Values
    ensures |m| <= 0x100 && Transformed(m, s, Some(cipher), lead).Some?
    ensures Transformed(m, s, Some(cipher), lead).value != data
  {
    hide FragmentAt;
    hide Transformed;
    hide Collected;
    SizesFit(data, sealed);
    var last, ids := FragTotal(sealed), Below(FragTotal(data) + 1);
    CollectedHolds(s, data, sealed, options, Sizes(data));
    CollectedParts(s, data, sealed, options);
    assert m.Keys == ids;
    LastDiffers(data, sealed);
    assert last in ids && !SameChunk(data, sealed, last);
    MixedReads(m, s, data, sealed, options, PlainFlags(options), {last}, cipher, lead);
  }

  lemma CollectedDropped(s: u32, data: seq<byte>, sealed: seq<byte>, options: SendOptions, cipher: Cipher,
                         m: map<u8, Fragment>, lead: Fragment)
    requires Sendable(sealed) && |sealed| == |data| + TAG_SIZE > MAX_FRAGMENT_INNER_SIZE && CrossesFragment(|data|)
    requires Sendable(data) && Sizes(data) <= 0x100 && m == Collected(s, data, sealed, options, Sizes(data))
    ensures |m| <= 0x100 && Transformed(m, s, Some(cipher), lead) == None
  {
    hide Collected;
    hide Transformed;
    SizesFit(data, sealed);
    CollectedHolds(s, data, sealed, options, Sizes(data));
    CrossingMixDropped(m, s, data, sealed, 0, FragTotal(sealed), Some(cipher), lead);
  }

  lemma CollectedParts(s: u32, data: seq<byte>, sealed: seq<byte>, options: SendOptions)
    requires Sendable(data) && Sendable(sealed)
    ensures FragmentAt(data, s, PlainFlags(options), 0).fragId == 0 && !IsEncrypted(PlainFlags(options))
  {
    assert !Bit(0, IS_ENCRYPTED_BIT);
  }

  /** The last fragments of the two messages have different lengths. */
  lemma LastDiffers(data: seq<byte>, sealed: seq<byte>)
    requires Sendable(data) && Sendable(sealed) && |sealed| == |data| + TAG_SIZE && FragTotal(data) == FragTotal(sealed)
    ensures |Chunk(data, FragTotal(data))| != |Chunk(sealed, FragTotal(sealed))|
  {}

  /** The run ends with the repaired fragment that fills the set; the first one decides how the set is read. */
  lemma MisreadingRun(s: u32, data: seq<byte>, sealed: seq<byte>, options: SendOptions) returns (r: Run, k: nat)
    requires Sendable(sealed) && |sealed| == |data| + TAG_SIZE > MAX_FRAGMENT_INNER_SIZE
    ensures Fed(r, s, data, sealed, options) && k + 1 == |r.steps| && Completes(r, k, s) && Quiet(r, k, s)
    ensures CrossesFragment(|data|) ==> r.outputs[k] == []
    ensures !CrossesFragment(|data|) ==> |r.outputs[k]| == 1 && r.outputs[k][0].0 == s && r.outputs[k][0].1 != data
    ensures !CrossesFragment(|data|) ==> r.states[k + 1] == Misread(s, data, options)
  {
    hide FragmentAt;
    hide Collected;
    hide Transformed;
    var cipher: Cipher := (t, b) => if b == sealed then Some(data) else None;
    SizesFit(data, sealed);
    var n := Sizes(data);
    r := CollectingRun(s, data, sealed, options, cipher, n - 1);
    k := |r.steps|;
    var f, lead := FragmentAt(data, s, PlainFlags(options), n - 1), FragmentAt(data, s, PlainFlags(options), 0);
    var before := r.states[k];
    LastPush(s, data, sealed, options, cipher, before, f, lead);
    RepairingIsPart(f, s, data, sealed, options);
    r := Extended(r, Pushed(f, 0, Some(cipher), lead), PushPending(before, f, 0, Some(cipher), lead),
                  PushOutput(before, f, 0, Some(cipher), lead), s, data, sealed, options);
  }

  /** The receiver's sets once the misread message is complete. */
  function Misread(s: u32, data: seq<byte>, options: SendOptions): Pending
    requires Sendable(data)
  {
    map[s := AssemblySet(Complete(0, FragTotal(data)), SealedFlags(options), None, 0, 0)]
  }

  /** A fragment that fills the set decides at once what becomes of it. */
  lemma FillingPush(s: u32, m: map<u8, Fragment>, flags: SetFlags, f: Fragment, cipher: Cipher, lead: Fragment)
    requires f.seqId == s && |m[f.fragId := f]| > f.fragTotal && |m[f.fragId := f]| <= 0x100
    ensures var (before, full) := (Opened(s, m, flags), m[f.fragId := f]);
      && Fills(Lookup(before, s), f) && Gathered(Lookup(before, s), f) == full
      && match Transformed(full, s, Some(cipher), lead) {
           case None => PushOutput(before, f, 0, Some(cipher), lead) == []
           case Some(bytes) =>
             && PushOutput(before, f, 0, Some(cipher), lead) == [(s, bytes)]
             && PushPending(before, f, 0, Some(cipher), lead)
                == map[s := AssemblySet(Complete(0, |full| - 1), flags, None, 0, 0)]
         }
  {
    hide Transformed;
    var set_ := AssemblySet(Incomplete(m), flags, None, 0, 0);
    assert Opened(s, m, flags)[s := set_] == Opened(s, m, flags);
    if Transformed(m[f.fragId := f], s, Some(cipher), lead).Some? {
      assert Filing(Some(set_), f, 0).Completed(0)
        == AssemblySet(Complete(0, |m[f.fragId := f]| - 1), flags, None, 0, 0);
    }
  }

  /** The push that fills the collected set. */
  lemma LastPush(s: u32, data: seq<byte>, sealed: seq<byte>, options: SendOptions, cipher: Cipher, before: Pending,
                 f: Fragment, lead: Fragment)
    requires Sendable(sealed) && |sealed| == |data| + TAG_SIZE > MAX_FRAGMENT_INNER_SIZE
    requires Authentic(cipher, s, data, sealed)
    requires Sendable(data) && Sizes(data) <= 0x100
    requires before == Opened(s, Collected(s, data, sealed, options, Sizes(data) - 1), SealedFlags(options))
    requires f == FragmentAt(data, s, PlainFlags(options), Sizes(data) - 1)
    requires lead == FragmentAt(data, s, PlainFlags(options), 0)
    ensures f.seqId == s && WellFormed(f) && Part(f, s, data, PlainFlags(options))
    ensures Fills(Lookup(before, s), f) && lead in Gathered(Lookup(before, s), f).Values
    ensures var (after, output) :=
      (PushPending(before, f, 0, Some(cipher), lead), PushOutput(before, f, 0, Some(cipher), lead));
      if CrossesFragment(|data|) then output == []
      else |output| == 1 && output[0].0 == s && output[0].1 != data && after == Misread(s, data, options)
  {
    LastIsPart(s, data, options, f);
    hide Chunk;
    hide Collected;
    hide Part;
    hide FragmentAt;
    hide Transformed;
    hide PushPending;
    hide PushOutput;
    hide Fills;
    hide Gathered;
    hide Opened;
    hide Misread;
    hide SealedFlags;
    hide PlainFlags;
    hide Sendable;
    var n := Sizes(data);
    var m, last := Collected(s, data, sealed, options, n), Collected(s, data, sealed, options, n - 1);
    CollectedFull(s, data, sealed, options, f, lead);
    FillOutcome(s, data, options, last, f, cipher, lead);
    if CrossesFragment(|data|) {
      CollectedDropped(s, data, sealed, options, cipher, m, lead);
    } else {
      CollectedMisread(s, data, sealed, options, cipher, m, lead);
    }
  }

  /** The set that `f` fills is dropped, or misread, as its fragments say. */
  lemma FillOutcome(s: u32, data: seq<byte>, options: SendOptions, last: map<u8, Fragment>, f: Fragment, cipher: Cipher,
                    lead: Fragment)
    requires Sendable(data) && f.seqId == s && f.fragTotal == FragTotal(data)
    requires FragTotal(data) < |last[f.fragId := f]| <= 0x100
    ensures var (before, m) := (Opened(s, last, SealedFlags(options)), last[f.fragId := f]);
      var output := PushOutput(before, f, 0, Some(cipher), lead);
      && Fills(Lookup(before, s), f) && Gathered(Lookup(before, s), f) == m
      && match Transformed(m, s, Some(cipher), lead) {
           case None => output == []
           case Some(bytes) =>
             && output == [(s, bytes)]
             && (|m| == FragTotal(data) + 1 ==>
                   PushPending(before, f, 0, Some(cipher), lead) == Misread(s, data, options))
         }
  {
    FillingPush(s, last, SealedFlags(options), f, cipher, lead);
  }

  lemma LastIsPart(s: u32, data: seq<byte>, options: SendOptions, f: Fragment)
    requires Sendable(data) && Sizes(data) <= 0x100 && f == FragmentAt(data, s, PlainFlags(options), Sizes(data) - 1)
    ensures f.seqId == s && WellFormed(f) && Part(f, s, data, PlainFlags(options))
    ensures f.fragId == Sizes(data) - 1 && f.fragTotal == FragTotal(data)
  {}

  /** With its last fragment the collected set is full, and the first one may lead it. */
  lemma CollectedFull(s: u32, data: seq<byte>, sealed: seq<byte>, options: SendOptions, f: Fragment, lead: Fragment)
    requires Sendable(sealed) && |sealed| == |data| + TAG_SIZE > MAX_FRAGMENT_INNER_SIZE
    requires Sendable(data) && Sizes(data) <= 0x100
    requires f == FragmentAt(data, s, PlainFlags(options), Sizes(data) - 1)
    requires lead == FragmentAt(data, s, PlainFlags(options), 0)
    ensures var (m, last) := (Collected(s, data, sealed, options, Sizes(data)),
                              Collected(s, data, sealed, options, Sizes(data) - 1));
      && m == last[f.fragId := f] && lead in m.Values && FragTotal(data) < |m| <= 0x100
      && (!CrossesFragment(|data|) ==> |m| == FragTotal(data) + 1)
  {
    hide Chunk;
    SizesFit(data, sealed);
    CollectedHolds(s, data, sealed, options, Sizes(data));
    var m := Collected(s, data, sealed, options, Sizes(data));
    assert 0 in m && m[0] == lead;
  }

  // ----- Main results -----

  /**
   * Repairing encrypted messages is sound for exactly the messages that, sealed, fit in one fragment:
   * for these every full set is read as the message, and for each other one some set is not.
   */
  lemma AlwaysReadExactly(s: u32, data: seq<byte>, sealed: seq<byte>, options: SendOptions)
    requires Sendable(sealed) && |sealed| == |data| + TAG_SIZE
    ensures AlwaysRead(s, data, sealed, options) <==> |data| + TAG_SIZE <= MAX_FRAGMENT_INNER_SIZE
  {
    if |sealed| <= MAX_FRAGMENT_INNER_SIZE {
      forall r: Run, k: nat | Fed(r, s, data, sealed, options) && k < |r.steps| && Completes(r, k, s)
        ensures r.outputs[k] == [(s, data)]
      {
        FedReads(r, s, data, sealed, options, k);
      }
    } else {
      var r, k := MisreadingRun(s, data, sealed, options);
      assert r.outputs[k] != [(s, data)];
    }
  }

  /**
   * Wrong bytes can be delivered for exactly the messages that take several fragments and as many sealed
   * as plain; where sealing takes one more, a set of both kinds is dropped instead.
   */
  lemma NeverWrongExactly(s: u32, data: seq<byte>, sealed: seq<byte>, options: SendOptions)
    requires Sendable(sealed) && |sealed| == |data| + TAG_SIZE
    ensures NeverWrong(s, data, sealed, options) <==>
      |data| + TAG_SIZE <= MAX_FRAGMENT_INNER_SIZE || CrossesFragment(|data|)
  {
    hide Fed;
    if |sealed| <= MAX_FRAGMENT_INNER_SIZE || CrossesFragment(|data|) {
      forall r: Run, k: nat, m: Message | Fed(r, s, data, sealed, options) && k < |r.outputs| && m in r.outputs[k]
        && m.0 == s
        ensures m.1 == data
      {
        FedValid(r, s, data, sealed, options);
        OutputsOnlyWhenFull(r, k, s, m);
        FedReads(r, s, data, sealed, options, k);
      }
    } else {
      var r, k := MisreadingRun(s, data, sealed, options);
      FedValid(r, s, data, sealed, options);
      assert r.outputs[k][0] in r.outputs[k];
    }
  }

  lemma FedValid(r: Run, s: u32, data: seq<byte>, sealed: seq<byte>, options: SendOptions)
    requires Fed(r, s, data, sealed, options)
    ensures r.Valid()
  {}
}
