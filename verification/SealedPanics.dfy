/** For which encrypted messages the receiver's tick may panic, over every run of one such message. */
module SealedPanics {
  import opened Prelude
  import opened AckBitmap
  import opened Fragmentation
  import opened Assembler
  import opened Sealed
  import opened SealedRuns
  import opened SealedDelivery

  // ----- When the receiver may panic -----

  /** Lengths, in fragments, whose last fragment has no bit. */
  predicate GapCount(count: nat) { count > 1 && count % 8 == 1 }

  /** The plain or the sealed message takes such a number of fragments. */
  predicate SealedGap(len: nat) { GapCount(FragmentCount(len)) || GapCount(FragmentCount(len + TAG_SIZE)) }

  /** A set may panic only if one of the two messages is in the gap. */
  lemma PanicNeedsGap(c: Sealing, m: map<u8, Fragment>)
    requires c.Valid() && Partial(m) && forall id :: id in m ==> c.IsKind(m[id])
    requires exists id :: id in m && !Fits(m.Keys, m[id].fragTotal)
    ensures SealedGap(|c.data|)
  {
    hide Kind;
    var id :| id in m && !Fits(m.Keys, m[id].fragTotal);
    var other :| other in m.Keys && other >= 8 * AckSize(m[id].fragTotal);
    TotalOf(c, m[id]);
    TotalOf(c, m[other]);
    CrossingCounts(|c.data|);
  }

  lemma TotalOf(c: Sealing, f: Fragment)
    requires c.Valid() && c.IsKind(f)
    ensures f.fragId <= f.fragTotal
    ensures f.fragTotal + 1 == FragmentCount(|c.sealed|) || f.fragTotal + 1 == FragmentCount(|c.data|)
  {}

  // ----- Main result -----

  /** No run of the message has a receiver's tick that panics. */
  ghost predicate ReceiverPanicFree(data: seq<byte>, sealed: seq<byte>) {
    forall r: Run, k: nat :: r.Valid() && r.Of(data, sealed) && k < |r.steps| ==> !r.steps[k].ReceiverPanic?
  }

  /** An encrypted message can make the receiver panic exactly when the plain or the sealed bytes are in the gap. */
  lemma ReceiverPanicFreeExactly(data: seq<byte>, sealed: seq<byte>)
    requires Sendable(sealed) && |sealed| == |data| + TAG_SIZE
    ensures ReceiverPanicFree(data, sealed) <==> !SealedGap(|data|)
  {
    if SealedGap(|data|) {
      var r := PanickingRun(data, sealed);
      assert r.Of(data, sealed);
    } else {
      forall r: Run, k: nat | r.Valid() && r.Of(data, sealed) && k < |r.steps| ensures !r.steps[k].ReceiverPanic? {
        if r.steps[k].ReceiverPanic? { PanicMeansGap(r, k); }
      }
    }
  }

  lemma PanicMeansGap(r: Run, k: nat)
    requires r.Valid() && k < |r.steps| && r.steps[k].ReceiverPanic?
    ensures SealedGap(|r.c.data|)
  {
    hide SealedGap;
    assert r.StepsTo(k);
    RunKeepsInv(r, k);
    var pending := r.states[k].pending;
    var s :| s in pending && pending[s].MayPanic();
    PanicNeedsGap(r.c, pending[s].state.fragments);
  }

  /** If the sealed bytes are in the gap, their last fragment alone makes the next tick panic. */
  lemma SealedGapPanics(data: seq<byte>, sealed: seq<byte>) returns (r: Run)
    requires Example(data, sealed).Valid() && data != [] && GapCount(FragmentCount(|sealed|))
    ensures r.Valid() && r.Of(data, sealed) && |r.steps| > 0 && r.steps[|r.steps| - 1].ReceiverPanic?
  {
    hide AfterRepair;
    hide FragmentAt;
    hide Holding;
    var c, total := Example(data, sealed), FragTotal(sealed);
    r := RepairedAtOnce(data, sealed);
    var f := FragmentAt(sealed, 0, SealedFlags(OPTIONS), total);
    FirstKind(c, total);
    HoldingNothing(c);
    r := Filed(c, r, map[], f);
    r := Panicking(c, r, map[][total := f], total, total);
  }

  /** If only the plain bytes are, a first fragment of the sealed ones and the last repaired one do. */
  lemma PlainGapPanics(data: seq<byte>, sealed: seq<byte>) returns (r: Run)
    requires Example(data, sealed).Valid() && GapCount(FragmentCount(|data|)) && CrossesFragment(|data|)
    ensures r.Valid() && r.Of(data, sealed) && |r.steps| > 0 && r.steps[|r.steps| - 1].ReceiverPanic?
  {
    hide AfterRepair;
    hide FragmentAt;
    hide Holding;
    var c := Example(data, sealed);
    CrossingCounts(|data|);
    r := RepairedAtOnce(data, sealed);
    var total := FragTotal(data);
    var f, g := FragmentAt(sealed, 0, SealedFlags(OPTIONS), 0), FragmentAt(data, 0, PlainFlags(OPTIONS), total);
    FirstKind(c, 0);
    PlainKind(c, total);
    HoldingNothing(c);
    r := Filed(c, r, map[], f);
    r := Filed(c, r, map[][0 := f], g);
    r := Panicking(c, r, map[][0 := f][total := g], total, total);
  }

  lemma PanickingRun(data: seq<byte>, sealed: seq<byte>) returns (r: Run)
    requires Example(data, sealed).Valid() && SealedGap(|data|)
    ensures r.Valid() && r.Of(data, sealed) && |r.steps| > 0 && r.steps[|r.steps| - 1].ReceiverPanic?
  {
    CrossingCounts(|data|);
    if GapCount(FragmentCount(|sealed|)) {
      r := SealedGapPanics(data, sealed);
    } else {
      r := PlainGapPanics(data, sealed);
    }
  }

  /** A tick that takes the length of the bitmap from fragment `lead`, for which `id` has no bit. */
  lemma Panicking(c: Sealing, r: Run, m: map<u8, Fragment>, lead: u8, id: u8) returns (r': Run)
    requires c.Valid() && Sendable(c.data) && c.options == OPTIONS && r.Valid() && r.c == c
    requires r.states[|r.steps|] == AfterRepair(c, Holding(c, m), [])
    requires lead in m && id in m && id >= 8 * AckSize(m[lead].fragTotal)
    ensures r'.Valid() && r'.c == c && |r'.steps| > 0 && r'.steps[|r'.steps| - 1].ReceiverPanic?
  {
    hide FragmentsOf;
    var st := r.states[|r.steps|];
    assert IsKey(SealedFlags(OPTIONS));
    assert id in m.Keys && !Fits(m.Keys, m[lead].fragTotal);
    assert st.pending[c.s].MayPanic() && st.pending[c.s].Due(1);
    r' := Extend(r, ReceiverPanic(1), st.(panicked := true));
  }
}
