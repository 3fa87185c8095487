/** Cutting a message into fragments and joining fragments again (fragment/mod.rs, frag_generation.rs). */
module Fragmentation {
  import opened Prelude

  const MAX_FRAGMENT_INNER_SIZE: nat := 1152
  const MAX_FRAGMENTS_IN_MESSAGE: nat := 256

  /** The flag word of a fragment set; unknown bits are carried along. */
  type SetFlags = u16

  const NO_FLAGS: SetFlags := 0
  const IS_KEY_BIT: nat := 0
  const IS_EXPIRE_BIT: nat := 1
  const IS_ENCRYPTED_BIT: nat := 2

  function SetFlag(flags: SetFlags, bit: nat, on: bool): (r: SetFlags)
    requires bit < 16
    ensures forall i :: Bit(r, i) <==> (if i == bit then on else Bit(flags, i))
  {
    FlagWidth();
    WithBitInRange(flags, bit, on, 16);
    assert forall i :: Bit(WithBit(flags, bit, on), i) <==> (if i == bit then on else Bit(flags, i)) by {
      forall i ensures Bit(WithBit(flags, bit, on), i) <==> (if i == bit then on else Bit(flags, i)) {
        WithBitThenBit(flags, bit, on, i);
      }
    }
    WithBit(flags, bit, on)
  }

  lemma FlagWidth()
    ensures Pow2(16) == 0x1_0000
  {
    ByteWidth();
    assert Pow2(10) == 1024;
    assert Pow2(12) == 4096;
    assert Pow2(14) == 16384;
  }

  predicate IsKey(flags: SetFlags) { Bit(flags, IS_KEY_BIT) }
  predicate IsExpire(flags: SetFlags) { Bit(flags, IS_EXPIRE_BIT) }
  predicate IsEncrypted(flags: SetFlags) { Bit(flags, IS_ENCRYPTED_BIT) }

  lemma NoFlagsSet()
    ensures !IsKey(NO_FLAGS) && !IsExpire(NO_FLAGS) && !IsEncrypted(NO_FLAGS)
  {
    assert !Bit(0, 0) && !Bit(0, 1) && !Bit(0, 2);
  }

  /** `fragTotal` is the number of fragments of the message minus one. */
  datatype Fragment = Fragment(seqId: u32, fragId: u8, fragTotal: u8, flags: SetFlags, data: seq<byte>)

  function FragmentCount(len: nat): nat {
    len / MAX_FRAGMENT_INNER_SIZE + (if len % MAX_FRAGMENT_INNER_SIZE != 0 then 1 else 0)
  }

  predicate Sendable(data: seq<byte>) {
    data != [] && FragmentCount(|data|) <= MAX_FRAGMENTS_IN_MESSAGE
  }

  /** A message is accepted exactly when it is not empty and fits in 256 full fragments. */
  lemma SendableLimit(data: seq<byte>)
    ensures Sendable(data) <==> 0 < |data| <= 1152 * 256
    ensures Sendable(data) ==> 1 <= FragmentCount(|data|) <= 256
    ensures Sendable(data) ==> 1152 * (FragmentCount(|data|) - 1) < |data| <= 1152 * FragmentCount(|data|)
  {}

  function FragTotal(data: seq<byte>): u8
    requires Sendable(data)
  {
    FragmentCount(|data|) - 1
  }

  function Min(a: int, b: int): int { if a <= b then a else b }

  /** The first `i` chunks end here. */
  function Cut(data: seq<byte>, i: nat): (n: nat)
    ensures n <= |data|
  {
    Min(i * MAX_FRAGMENT_INNER_SIZE, |data|)
  }

  function Chunk(data: seq<byte>, i: nat): (c: seq<byte>)
    ensures |c| <= MAX_FRAGMENT_INNER_SIZE
  {
    data[Cut(data, i)..Cut(data, i + 1)]
  }

  function FragmentAt(data: seq<byte>, seqId: u32, flags: SetFlags, i: u8): Fragment
    requires Sendable(data)
  {
    Fragment(seqId, i, FragTotal(data), flags, Chunk(data, i))
  }

  /** All fragments of a message, in order. */
  function FragmentsOf(data: seq<byte>, seqId: u32, flags: SetFlags): (s: seq<Fragment>)
    requires Sendable(data)
    ensures |s| == FragTotal(data) + 1
  {
    seq(FragmentCount(|data|), i requires 0 <= i < FragmentCount(|data|) => FragmentAt(data, seqId, flags, i))
  }

  /** `Overflow` is the panic of the 8-bit counter in a build that checks overflow. */
  datatype Yield = Done | Overflow | Yielded(fragment: Fragment)

  /** The fragment iterator: `rest` is what the chunk iterator has not yielded yet. */
  class FragmentGenerator {
    const seqId: u32
    const fragTotal: u8
    const flags: SetFlags
    var nextFrag: u8
    var rest: seq<byte>
    ghost const data: seq<byte>
    ghost var produced: nat

    ghost predicate Valid()
      reads this
    {
      && Sendable(data)
      && fragTotal == FragTotal(data)
      && produced <= FragmentCount(|data|)
      && nextFrag == produced % 0x100
      && rest == data[Cut(data, produced)..]
    }

    constructor (data: seq<byte>, seqId: u32, fragTotal: u8, flags: SetFlags)
      requires Sendable(data) && fragTotal == FragTotal(data)
      ensures Valid() && fresh(this)
      ensures this.data == data && this.seqId == seqId && this.flags == flags && produced == 0
    {
      this.data := data;
      this.seqId := seqId;
      this.fragTotal := fragTotal;
      this.flags := flags;
      this.nextFrag := 0;
      this.rest := data;
      this.produced := 0;
    }

    /** Refuses an empty message and a message of more than 256 fragments. */
    static method New(data: seq<byte>, seqId: u32, flags: SetFlags) returns (r: Option<FragmentGenerator>)
      ensures r.Some? <==> Sendable(data)
      ensures r.Some? ==> r.value.Valid() && fresh(r.value)
      ensures r.Some? ==> r.value.data == data && r.value.seqId == seqId && r.value.flags == flags
      ensures r.Some? ==> r.value.produced == 0
    {
      if data == [] {
        return None;
      }
      var count := |data| / MAX_FRAGMENT_INNER_SIZE;
      if |data| % MAX_FRAGMENT_INNER_SIZE != 0 {
        count := count + 1;
      }
      if count > MAX_FRAGMENTS_IN_MESSAGE {
        return None;
      }
      var g := new FragmentGenerator(data, seqId, count - 1, flags);
      return Some(g);
    }

    /**
     * Yields the fragments in order. The counter moves on before the fragment is handed out: after the
     * 256th fragment it wraps, or panics when overflow is `checked`.
     */
    method Next(checked: bool) returns (r: Yield)
      requires Valid()
      modifies this
      ensures !r.Overflow? ==> Valid()
      ensures r.Done? <==> old(produced) >= |FragmentsOf(data, seqId, flags)|
      ensures r.Overflow? <==> checked && old(produced) == 0xFF < |FragmentsOf(data, seqId, flags)|
      ensures r.Yielded? ==>
        produced == old(produced) + 1 && r.fragment == FragmentsOf(data, seqId, flags)[old(produced)]
      ensures !r.Yielded? ==> produced == old(produced)
    {
      CutsProgress(data, produced);
      if rest == [] {
        return Done;
      }
      var chunk := rest[..Min(MAX_FRAGMENT_INNER_SIZE, |rest|)];
      var current := nextFrag;
      assert chunk == Chunk(data, produced);
      rest := rest[|chunk|..];
      if checked && nextFrag == 0xFF {
        return Overflow;
      }
      nextFrag := (nextFrag + 1) % 0x100;
      produced := produced + 1;
      return Yielded(Fragment(seqId, current, fragTotal, flags, chunk));
    }
  }

  lemma CutsProgress(data: seq<byte>, i: nat)
    requires Sendable(data) && i <= FragmentCount(|data|)
    ensures i < FragmentCount(|data|) <==> Cut(data, i) < |data|
    ensures i < FragmentCount(|data|) ==>
      Cut(data, i + 1) == Cut(data, i) + Min(MAX_FRAGMENT_INNER_SIZE, |data| - Cut(data, i))
  {}

  datatype SendError = SentMsgEmpty | SentMsgTooBig(attemptSize: nat)
  datatype Fragmented = Refused(error: SendError) | Overflowed | Fragments(fragments: seq<Fragment>, fragTotal: u8)

  /** The lengths that take all 256 fragments. */
  predicate Overlong(data: seq<byte>) { |data| > 255 * MAX_FRAGMENT_INNER_SIZE }

  /**
   * Runs the generator to its end, as every sender does. In a checked build it panics exactly for the longest
   * messages.
   */
  method BuildFragmentsFromBytes(data: seq<byte>, seqId: u32, flags: SetFlags, checked: bool) returns (r: Fragmented)
    ensures data == [] <==> r == Refused(SentMsgEmpty)
    ensures |data| > MAX_FRAGMENT_INNER_SIZE * MAX_FRAGMENTS_IN_MESSAGE <==> r == Refused(SentMsgTooBig(|data|))
    ensures Sendable(data) <==> !r.Refused?
    ensures r.Overflowed? <==> checked && Sendable(data) && Overlong(data)
    ensures r.Fragments? ==> r.fragments == FragmentsOf(data, seqId, flags) && r.fragTotal == FragTotal(data)
  {
    SendableLimit(data);
    var g := FragmentGenerator.New(data, seqId, flags);
    if g.None? {
      return Refused(if |data| == 0 then SentMsgEmpty else SentMsgTooBig(|data|));
    }
    var generator := g.value;
    ghost var whole := FragmentsOf(data, seqId, flags);
    assert |whole| == 256 <==> Overlong(data);
    var fragments: seq<Fragment> := [];
    while true
      invariant generator.Valid() && fresh(generator)
      invariant |fragments| == generator.produced <= |whole|
      invariant checked ==> generator.produced <= 255
      invariant fragments == whole[..generator.produced]
      decreases |whole| - generator.produced
    {
      var f := generator.Next(checked);
      match f {
        case Done => break;
        case Overflow => return Overflowed;
        case Yielded(fragment) => fragments := fragments + [fragment];
      }
    }
    return Fragments(fragments, generator.fragTotal);
  }

  // ----- Joining -----

  /** The data of fragments `0..n` in id order; ids that are absent contribute nothing. */
  function Joined(parts: map<u8, Fragment>, n: nat): seq<byte>
    requires n <= 0x100
  {
    if n == 0 then [] else Joined(parts, n - 1) + (if n - 1 in parts then parts[n - 1].data else [])
  }

  /** Every id names a slot and no two fragments share one. */
  predicate Placeable(fragments: seq<Fragment>) {
    PlaceableIn(fragments, |fragments|)
  }

  predicate PlaceableIn(fragments: seq<Fragment>, slots: nat) {
    DistinctIds(fragments) && forall i :: 0 <= i < |fragments| ==> fragments[i].fragId < slots
  }

  predicate DistinctIds(fragments: seq<Fragment>) {
    forall i, j :: 0 <= i < j < |fragments| ==> fragments[i].fragId != fragments[j].fragId
  }

  /** The fragments keyed by id; a later fragment replaces an earlier one of the same id. */
  function ById(fragments: seq<Fragment>): map<u8, Fragment> {
    if fragments == [] then map[]
    else
      var last := fragments[|fragments| - 1];
      ById(fragments[..|fragments| - 1])[last.fragId := last]
  }

  lemma ByIdNext(fragments: seq<Fragment>, n: nat)
    requires n < |fragments|
    ensures ById(fragments[..n + 1]) == ById(fragments[..n])[fragments[n].fragId := fragments[n]]
  {
    assert fragments[..n + 1][..n] == fragments[..n];
  }

  lemma {:induction false} ByIdComesFrom(fragments: seq<Fragment>, id: u8)
    requires id in ById(fragments)
    ensures exists i :: 0 <= i < |fragments| && fragments[i].fragId == id && ById(fragments)[id] == fragments[i]
  {
    var last := |fragments| - 1;
    if fragments[last].fragId == id {
      assert ById(fragments)[id] == fragments[last];
    } else {
      ByIdComesFrom(fragments[..last], id);
      var i :| 0 <= i < last && fragments[..last][i].fragId == id
        && ById(fragments[..last])[id] == fragments[..last][i];
      assert fragments[i].fragId == id && ById(fragments)[id] == fragments[i];
    }
  }

  /** `Panicked` is one of the assertions on the slots, or the access to slot 0 of an empty message. */
  datatype Built = Data(bytes: seq<byte>) | Rejected | Panicked

  /** The slots hold exactly the parts, each under its id. */
  ghost predicate Holds(slots: seq<Option<Fragment>>, parts: map<u8, Fragment>) {
    forall id: u8 :: id < |slots| ==> slots[id] == if id in parts then Some(parts[id]) else None
  }

  /** Puts every fragment into the slot of its id; fails on an id without a slot or a slot used twice. */
  method FillSlots(fragments: seq<Fragment>) returns (placed: bool, slots: array<Option<Fragment>>)
    ensures placed <==> Placeable(fragments)
    ensures placed ==> slots.Length == |fragments| && Holds(slots[..], ById(fragments))
  {
    slots := new Option<Fragment>[|fragments|](_ => None);
    for n := 0 to |fragments|
      invariant PlaceableIn(fragments[..n], |fragments|)
      invariant Holds(slots[..], ById(fragments[..n]))
    {
      var id := fragments[n].fragId;
      ByIdNext(fragments, n);
      if id >= slots.Length || slots[id].Some? {
        if id < slots.Length {
          ByIdComesFrom(fragments[..n], id);
          var i :| 0 <= i < n && fragments[..n][i].fragId == id;
          assert fragments[i].fragId == fragments[n].fragId;
        }
        return false, slots;
      }
      PlaceNext(fragments, n);
      slots[id] := Some(fragments[n]);
    }
    assert fragments[..|fragments|] == fragments;
    return true, slots;
  }

  lemma PlaceNext(fragments: seq<Fragment>, n: nat)
    requires n < |fragments| && PlaceableIn(fragments[..n], |fragments|)
    requires fragments[n].fragId < |fragments| && fragments[n].fragId !in ById(fragments[..n])
    ensures PlaceableIn(fragments[..n + 1], |fragments|)
  {
    forall i | 0 <= i < n ensures fragments[i].fragId != fragments[n].fragId {
      ByIdHolds(fragments[..n], fragments[..n][i]);
    }
    assert fragments[..n + 1] == fragments[..n] + [fragments[n]];
  }

  /**
   * Joins the fragments of a message in id order. The assertion that no slot is left empty never
   * fires; the one on the number of fragments does exactly when the fragment in slot 0 announces
   * another number. More than 256 fragments are rejected, as two of them share an id.
   */
  method BuildDataFromFragments(fragments: seq<Fragment>) returns (r: Built)
    ensures r.Rejected? <==> !Placeable(fragments)
    ensures r.Panicked? <==>
      (Placeable(fragments) && !(0 in ById(fragments) && ById(fragments)[0].fragTotal + 1 == |fragments|))
    ensures r.Data? ==> |fragments| <= 0x100 && r.bytes == Joined(ById(fragments), |fragments|)
  {
    var placed, slots := FillSlots(fragments);
    if !placed {
      return Rejected;
    }
    ghost var parts := ById(fragments);
    PlaceableSize(fragments);
    AllPlaced(fragments);
    if exists id :: 0 <= id < slots.Length && slots[id].None? {
      assert false;
    }
    if slots.Length == 0 {
      return Panicked;
    }
    if slots[0].value.fragTotal + 1 != slots.Length {
      return Panicked;
    }
    var bytes := JoinSlots(slots[..], parts);
    return Data(bytes);
  }

  method JoinSlots(slots: seq<Option<Fragment>>, ghost parts: map<u8, Fragment>) returns (bytes: seq<byte>)
    requires |slots| <= 0x100 && parts.Keys == Below(|slots|) && Holds(slots, parts)
    ensures bytes == Joined(parts, |slots|)
  {
    bytes := [];
    for n := 0 to |slots|
      invariant bytes == Joined(parts, n)
    {
      bytes := bytes + slots[n].value.data;
    }
  }

  /** Pigeonhole: as many distinct ids as slots leave no slot empty. */
  lemma AllPlaced(fragments: seq<Fragment>)
    requires |fragments| <= 0x100 && Placeable(fragments)
    ensures ById(fragments).Keys == Below(|fragments|)
  {
    ByIdSize(fragments);
    forall id | id in ById(fragments) ensures id in Below(|fragments|) { ByIdComesFrom(fragments, id); }
    SubsetOfSameSize(ById(fragments).Keys, Below(|fragments|));
  }

  /** No more than 256 fragments have distinct ids. */
  lemma PlaceableSize(fragments: seq<Fragment>)
    requires Placeable(fragments)
    ensures |fragments| <= 0x100
  {
    ByIdSize(fragments);
    SubsetSize(ById(fragments).Keys, Below(0x100));
  }

  lemma {:induction false} ByIdSize(fragments: seq<Fragment>)
    requires DistinctIds(fragments)
    ensures |ById(fragments).Keys| == |fragments|
  {
    if fragments != [] {
      var front, last := fragments[..|fragments| - 1], fragments[|fragments| - 1];
      ByIdSize(front);
      if last.fragId in ById(front) { ByIdComesFrom(front, last.fragId); assert false; }
      assert ById(fragments).Keys == ById(front).Keys + {last.fragId};
    }
  }

  // ----- Cutting and joining are inverse -----

  /** The parts agree with the fragments of `data` on id, number of fragments and bytes. */
  predicate PartOf(f: Fragment, data: seq<byte>) {
    Sendable(data) && f.fragId <= f.fragTotal == FragTotal(data) && f.data == Chunk(data, f.fragId)
  }

  lemma ChunkExtends(data: seq<byte>, i: nat)
    ensures data[..Cut(data, i + 1)] == data[..Cut(data, i)] + Chunk(data, i)
  {}

  lemma {:induction false} JoinedChunks(parts: map<u8, Fragment>, data: seq<byte>, n: nat)
    requires n <= 0x100
    requires forall i: u8 :: i < n ==> i in parts && parts[i].data == Chunk(data, i)
    ensures Joined(parts, n) == data[..Cut(data, n)]
  {
    if n > 0 {
      JoinedChunks(parts, data, n - 1);
      ChunkExtends(data, n - 1);
    }
  }

  /** All parts of a message join to the message. */
  lemma JoinedWhole(parts: map<u8, Fragment>, data: seq<byte>)
    requires Sendable(data)
    requires forall i: u8 :: i <= FragTotal(data) ==> i in parts && parts[i].fragId == i && PartOf(parts[i], data)
    ensures Joined(parts, FragTotal(data) + 1) == data
  {
    JoinedChunks(parts, data, FragmentCount(|data|));
    CutsProgress(data, FragmentCount(|data|));
  }

  lemma {:induction false} ByIdHolds(fragments: seq<Fragment>, f: Fragment)
    requires DistinctIds(fragments)
    requires f in fragments
    ensures f.fragId in ById(fragments) && ById(fragments)[f.fragId] == f
  {
    var last := fragments[|fragments| - 1];
    if f != last {
      assert f in fragments[..|fragments| - 1];
      ByIdHolds(fragments[..|fragments| - 1], f);
    }
  }

  /** However a list of fragments with distinct ids is reordered, the ids stay distinct. */
  lemma DistinctInAnyOrder(whole: seq<Fragment>, order: seq<Fragment>)
    requires DistinctIds(whole) && multiset(order) == multiset(whole)
    ensures DistinctIds(order) && |order| == |whole|
    ensures forall f :: f in order <==> f in whole
  {
    PermutationLength(order, whole);
    forall f ensures f in order <==> f in whole {
      assert f in order <==> f in multiset(order);
      assert f in whole <==> f in multiset(whole);
    }
    forall i, j | 0 <= i < j < |order| ensures order[i].fragId != order[j].fragId {
      if order[i].fragId == order[j].fragId {
        assert order[i] in whole && order[j] in whole;
        TwiceInOrder(order, i, j);
        AtMostOnce(whole, order[i]);
      }
    }
  }

  lemma TwiceInOrder(order: seq<Fragment>, i: nat, j: nat)
    requires i < j < |order| && order[i] == order[j]
    ensures multiset(order)[order[i]] >= 2
  {
    assert order == order[..j] + order[j..];
    assert order[i] in order[..j] && order[j] in order[j..];
  }

  lemma {:induction false} AtMostOnce(whole: seq<Fragment>, f: Fragment)
    requires DistinctIds(whole)
    ensures multiset(whole)[f] <= 1
  {
    if whole != [] {
      var front, last := whole[..|whole| - 1], whole[|whole| - 1];
      AtMostOnce(front, f);
      assert whole == front + [last];
      if f in front { assert f != last; }
    }
  }

  /** However a numbered list of fragments is reordered, keying it by id finds every fragment. */
  lemma AnyOrderPlaces(whole: seq<Fragment>, order: seq<Fragment>)
    requires forall i :: 0 <= i < |whole| ==> whole[i].fragId == i
    requires multiset(order) == multiset(whole)
    ensures Placeable(order)
    ensures forall i: u8 :: i < |whole| ==> i in ById(order) && ById(order)[i] == whole[i]
  {
    DistinctInAnyOrder(whole, order);
    forall i | 0 <= i < |order| ensures order[i].fragId < |order| {
      assert order[i] in whole;
    }
    forall i: u8 | i < |whole| ensures i in ById(order) && ById(order)[i] == whole[i] {
      assert whole[i] in order;
      ByIdHolds(order, whole[i]);
    }
  }

  /**
   * Cutting and joining are inverse under every reordering: whatever the order the fragments of a
   * message arrive in, they are placed without a panic and join to the message, for every message
   * the sender accepts (256 fragments included).
   */
  lemma AnyOrderRebuilds(data: seq<byte>, seqId: u32, flags: SetFlags, order: seq<Fragment>)
    requires Sendable(data)
    requires multiset(order) == multiset(FragmentsOf(data, seqId, flags))
    ensures Placeable(order)
    ensures |order| == FragTotal(data) + 1
    ensures 0 in ById(order) && ById(order)[0].fragTotal + 1 == |order|
    ensures Joined(ById(order), |order|) == data
  {
    var whole := FragmentsOf(data, seqId, flags);
    PermutationLength(order, whole);
    AnyOrderPlaces(whole, order);
    assert forall i: u8 :: i < |whole| ==> whole[i] == FragmentAt(data, seqId, flags, i);
    JoinedWhole(ById(order), data);
  }
}
