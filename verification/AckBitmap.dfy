/** The acknowledgement bitmap of one fragmented message (fragment/ack.rs). */
module AckBitmap {
  import opened Prelude

  type Bitmap = seq<byte>

  function AckSize(fragTotal: u8): nat {
    if fragTotal % 8 == 0 then fragTotal / 8 else fragTotal / 8 + 1
  }

  /** Whether the bitmap has a bit for `id` and the bit is set. */
  predicate Acked(ack: Bitmap, id: nat) {
    id / 8 < |ack| && Bit(ack[id / 8], id % 8)
  }

  function CreateComplete(fragTotal: u8): Bitmap {
    seq(AckSize(fragTotal), _ => 0xFF)
  }

  function IdSet(ids: seq<u8>): set<u8> {
    set id | id in ids
  }

  /**
   * ORs one bit per received id into a zeroed buffer. `None` is the out-of-range index panic of the
   * buffer access.
   */
  method CreateFromFragIds(ids: seq<u8>, fragTotal: u8) returns (r: Option<Bitmap>)
    ensures r.Some? <==> forall id :: id in ids ==> id < 8 * AckSize(fragTotal)
    ensures r.Some? ==> |r.value| == AckSize(fragTotal)
    ensures r.Some? ==> forall v: nat :: Acked(r.value, v) <==> v in ids
    ensures r.Some? ==> r.value == BitmapOf(IdSet(ids), fragTotal)
  {
    var ack: Bitmap := seq(AckSize(fragTotal), _ => 0);
    assert forall v: nat :: !Acked(ack, v) by {
      forall v: nat ensures !Acked(ack, v) { ZeroHasNoBits(v % 8); }
    }
    for n := 0 to |ids|
      invariant |ack| == AckSize(fragTotal)
      invariant forall id :: id in ids[..n] ==> id < 8 * AckSize(fragTotal)
      invariant forall v: nat :: Acked(ack, v) <==> v in ids[..n]
    {
      var byteIndex, bitIndex := ids[n] / 8, ids[n] % 8;
      assert ids[..n + 1] == ids[..n] + [ids[n]];
      if byteIndex >= |ack| {
        assert ids[n] in ids;
        return None;
      }
      WithBitKeepsByte(ack[byteIndex], bitIndex);
      ghost var before := ack;
      ack := ack[byteIndex := WithBit(ack[byteIndex], bitIndex, true)];
      forall v: nat ensures Acked(ack, v) <==> Acked(before, v) || v == ids[n] {
        WithBitThenBit(before[byteIndex], bitIndex, true, v % 8);
      }
    }
    assert ids[..|ids|] == ids;
    SameBits(ack, BitmapOf(IdSet(ids), fragTotal), IdSet(ids), fragTotal);
    return Some(ack);
  }

  lemma WithBitKeepsByte(b: byte, i: nat)
    requires i < 8
    ensures 0 <= WithBit(b, i, true) < 0x100
  {
    ByteWidth();
    WithBitInRange(b, i, true, 8);
  }

  lemma {:induction false} ZeroHasNoBits(i: nat)
    ensures !Bit(0, i)
  {
    if i > 0 { ZeroHasNoBits(i - 1); }
  }

  lemma FullHasAllBits(i: nat)
    requires i < 8
    ensures Bit(0xFF, i)
  {
    var half := 0xFF / 2;
    assert Bit(0xFF, 0) && Bit(0x7F, 0) && Bit(0x3F, 0) && Bit(0x1F, 0);
    assert Bit(0xF, 0) && Bit(7, 0) && Bit(3, 0) && Bit(1, 0);
    assert Bit(0xF, 1) && Bit(0xF, 2) && Bit(0xF, 3);
    assert Bit(0x1F, 4) && Bit(0x3F, 5) && Bit(0x7F, 6) && Bit(0xFF, 7);
  }

  /** The byte whose bit `i` says whether `base + i` is in `ids`, for `i < n`. */
  function ByteOf(ids: set<u8>, base: nat, n: nat): (b: nat)
    requires n <= 8
    ensures b < Pow2(n)
    decreases n
  {
    if n == 0 then 0 else 2 * ByteOf(ids, base + 1, n - 1) + (if base in ids then 1 else 0)
  }

  lemma {:induction false} ByteOfBits(ids: set<u8>, base: nat, n: nat, i: nat)
    requires i < n <= 8
    ensures Bit(ByteOf(ids, base, n), i) <==> base + i in ids
    decreases n
  {
    if i > 0 { ByteOfBits(ids, base + 1, n - 1, i - 1); }
  }

  /** The bitmap with exactly the bits of `ids`. */
  function BitmapOf(ids: set<u8>, fragTotal: u8): (ack: Bitmap)
    ensures |ack| == AckSize(fragTotal)
  {
    ByteWidth();
    seq(AckSize(fragTotal), k requires 0 <= k => ByteOf(ids, 8 * k, 8))
  }

  lemma BitmapOfBits(ids: set<u8>, fragTotal: u8, v: nat)
    requires v < 8 * AckSize(fragTotal)
    ensures Acked(BitmapOf(ids, fragTotal), v) <==> v in ids
  {
    ByteOfBits(ids, 8 * (v / 8), 8, v % 8);
  }

  lemma SameBits(a: Bitmap, b: Bitmap, ids: set<u8>, fragTotal: u8)
    requires |a| == AckSize(fragTotal) && b == BitmapOf(ids, fragTotal)
    requires forall v: nat :: Acked(a, v) <==> v in ids
    ensures a == b
  {
    ByteWidth();
    forall k | 0 <= k < |a| ensures a[k] == b[k] {
      forall i | 0 <= i < 8 ensures Bit(a[k], i) <==> Bit(b[k], i) {
        var v: nat := 8 * k + i;
        assert v / 8 == k && v % 8 == i;
        BitmapOfBits(ids, fragTotal, v);
        assert Acked(a, v) <==> v in ids;
      }
      BitsDetermine(a[k], b[k], 8);
    }
  }

  /**
   * The ids found missing in the first `n` bits of a bitmap, in bit order. The id is computed in
   * eight bits, so a bitmap longer than 32 bytes starts over at id 0.
   */
  function MissingUpTo(ack: Bitmap, n: nat, fragTotal: u8): (ids: seq<u8>)
    requires n <= 8 * |ack|
    ensures forall id :: id in ids ==> id <= fragTotal
  {
    if n == 0 then []
    else
      var v := (n - 1) % 0x100;
      MissingUpTo(ack, n - 1, fragTotal)
      + (if !Bit(ack[(n - 1) / 8], (n - 1) % 8) && v <= fragTotal then [v] else [])
  }

  function MissingIds(ack: Bitmap, fragTotal: u8): seq<u8> {
    MissingUpTo(ack, 8 * |ack|, fragTotal)
  }

  /** The numbers below `n` that are not in `ids`, ascending. */
  function AbsentBelow(ids: set<u8>, n: nat): (s: seq<u8>)
    requires n <= 0x100
  {
    if n == 0 then [] else AbsentBelow(ids, n - 1) + (if n - 1 !in ids then [n - 1] else [])
  }

  lemma {:induction false} AbsentBelowAscends(ids: set<u8>, n: nat)
    requires n <= 0x100
    ensures forall v :: v in AbsentBelow(ids, n) <==> 0 <= v < n && v !in ids
    ensures forall i, j :: 0 <= i < j < |AbsentBelow(ids, n)| ==> AbsentBelow(ids, n)[i] < AbsentBelow(ids, n)[j]
  {
    if n > 0 {
      AbsentBelowAscends(ids, n - 1);
      var p := AbsentBelow(ids, n - 1);
      forall i | 0 <= i < |p| ensures p[i] < n - 1 { assert p[i] in p; }
    }
  }

  /** The number of ids of a message of `fragTotal + 1` fragments that have a bit in its bitmap. */
  function Covered(fragTotal: u8): (n: nat)
    ensures n <= fragTotal + 1 && n <= 8 * AckSize(fragTotal)
    ensures n == fragTotal + 1 <==> fragTotal % 8 != 0
    ensures fragTotal % 8 == 0 ==> n == fragTotal
  {
    if fragTotal % 8 == 0 then fragTotal else fragTotal + 1
  }

  /**
   * The missing-id iterator is the complement of the bitmap, for every message size: it lists in
   * order the ids below `Covered(fragTotal)` that were not received. That is every id of the message
   * unless `fragTotal` is a multiple of eight, in which case the last id is never reported.
   */
  lemma MissingComplementsBitmap(ids: set<u8>, fragTotal: u8)
    ensures MissingIds(BitmapOf(ids, fragTotal), fragTotal) == AbsentBelow(ids, Covered(fragTotal))
  {
    var ack := BitmapOf(ids, fragTotal);
    forall v: nat | v < 8 * |ack| ensures Acked(ack, v) <==> v in ids {
      BitmapOfBits(ids, fragTotal, v);
    }
    MissingPrefix(ack, ids, fragTotal, Covered(fragTotal), 8 * |ack|);
  }

  lemma MissingStep(ack: Bitmap, n: nat, fragTotal: u8)
    requires 0 < n <= 8 * |ack| && n <= 0x100
    ensures MissingUpTo(ack, n, fragTotal) == MissingUpTo(ack, n - 1, fragTotal)
                                              + (if !Acked(ack, n - 1) && n - 1 <= fragTotal then [n - 1] else [])
  {}

  lemma {:induction false} MissingPrefix(ack: Bitmap, ids: set<u8>, fragTotal: u8, covered: nat, n: nat)
    requires n <= 8 * |ack| <= 0x100
    requires forall v: nat :: v < 8 * |ack| ==> (Acked(ack, v) <==> v in ids)
    requires covered <= fragTotal + 1
    requires covered == fragTotal + 1 || covered == 8 * |ack|
    ensures MissingUpTo(ack, n, fragTotal) == AbsentBelow(ids, if n <= covered then n else covered)
  {
    if n > 0 {
      MissingPrefix(ack, ids, fragTotal, covered, n - 1);
      MissingStep(ack, n, fragTotal);
    }
  }

  /** A complete acknowledgement misses nothing, for every message size. */
  lemma CompleteMissesNothing(fragTotal: u8)
    ensures MissingIds(CreateComplete(fragTotal), fragTotal) == []
  {
    CompletePrefix(fragTotal, 8 * AckSize(fragTotal));
  }

  lemma {:induction false} CompletePrefix(fragTotal: u8, n: nat)
    requires n <= 8 * AckSize(fragTotal)
    ensures MissingUpTo(CreateComplete(fragTotal), n, fragTotal) == []
  {
    if n > 0 {
      CompletePrefix(fragTotal, n - 1);
      FullHasAllBits((n - 1) % 8);
    }
  }

  lemma {:induction false} NothingAbsent(n: nat, k: nat)
    requires k <= n <= 0x100
    ensures AbsentBelow(Below(n), k) == []
  {
    if k > 0 { NothingAbsent(n, k - 1); }
  }

  /** A bitmap that acknowledges all ids below `fragTotal` misses nothing of a message with one fragment fewer. */
  lemma OneFewerMissesNothing(fragTotal: u8)
    requires fragTotal > 0
    ensures MissingIds(BitmapOf(Below(fragTotal), fragTotal), fragTotal - 1) == []
  {
    hide MissingUpTo;
    hide AbsentBelow;
    hide BitmapOf;
    var ids, ack := Below(fragTotal), BitmapOf(Below(fragTotal), fragTotal);
    forall v: nat | v < 8 * |ack| ensures Acked(ack, v) <==> v in ids {
      BitmapOfBits(ids, fragTotal, v);
    }
    MissingPrefix(ack, ids, fragTotal - 1, fragTotal, 8 * |ack|);
    NothingAbsent(fragTotal, fragTotal);
  }
}
