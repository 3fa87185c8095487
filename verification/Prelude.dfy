/** Machine words, clock units and bits, shared by every other module. */
module Prelude {
  type byte = b: int | 0 <= b < 0x100
  type u8 = b: int | 0 <= b < 0x100
  type u16 = w: int | 0 <= w < 0x1_0000
  type u32 = w: int | 0 <= w < 0x1_0000_0000

  const U32_COUNT: int := 0x1_0000_0000

  /** Times are natural numbers of nanoseconds, the resolution of a duration. */
  const MILLISECOND: nat := 1_000_000
  const SECOND: nat := 1000 * MILLISECOND

  datatype Option<+T> = None | Some(value: T)

  /** `v & (1 << i) != 0`. */
  predicate Bit(v: nat, i: nat) {
    if i == 0 then v % 2 == 1 else Bit(v / 2, i - 1)
  }

  /** `v | (1 << i)` when `on`, `v & !(1 << i)` otherwise. */
  function WithBit(v: nat, i: nat, on: bool): nat {
    if i == 0 then v - v % 2 + (if on then 1 else 0) else 2 * WithBit(v / 2, i - 1, on) + v % 2
  }

  /** Writing one bit shows in that bit and in no other. */
  lemma {:induction false} WithBitThenBit(v: nat, i: nat, on: bool, j: nat)
    ensures Bit(WithBit(v, i, on), j) <==> (if i == j then on else Bit(v, j))
  {
    if i != 0 && j != 0 {
      WithBitThenBit(v / 2, i - 1, on, j - 1);
    }
  }

  function Pow2(n: nat): (p: nat)
    ensures p > 0
  {
    if n == 0 then 1 else 2 * Pow2(n - 1)
  }

  /** Writing a bit below the width of a word stays in the word. */
  lemma {:induction false} WithBitInRange(v: nat, i: nat, on: bool, n: nat)
    requires i < n && v < Pow2(n)
    ensures WithBit(v, i, on) < Pow2(n)
  {
    if i != 0 {
      WithBitInRange(v / 2, i - 1, on, n - 1);
    }
  }

  lemma ByteWidth()
    ensures Pow2(8) == 0x100
  {
    assert Pow2(4) == 16;
    assert Pow2(6) == 64;
  }

  /** A word is determined by its bits. */
  lemma {:induction false} BitsDetermine(a: nat, b: nat, n: nat)
    requires a < Pow2(n) && b < Pow2(n)
    requires forall i :: 0 <= i < n ==> (Bit(a, i) <==> Bit(b, i))
    ensures a == b
  {
    if n > 0 {
      assert Bit(a, 0) <==> Bit(b, 0);
      forall i | 0 <= i < n - 1 ensures Bit(a / 2, i) <==> Bit(b / 2, i) {
        assert Bit(a, i + 1) <==> Bit(b, i + 1);
      }
      BitsDetermine(a / 2, b / 2, n - 1);
    }
  }

  /** The bytes below `n`. */
  function Below(n: nat): (s: set<u8>)
    requires n <= 0x100
    ensures forall i :: i in s <==> 0 <= i < n
    ensures |s| == n
  {
    if n == 0 then {} else Below(n - 1) + {n - 1}
  }

  lemma {:induction false} SubsetSize<T>(a: set<T>, b: set<T>)
    requires a <= b
    ensures |a| <= |b|
  {
    if a != {} {
      var x :| x in a;
      SubsetSize(a - {x}, b - {x});
    }
  }

  /** Pigeonhole: a subset that is as large as its superset is all of it. */
  lemma SubsetOfSameSize<T>(a: set<T>, b: set<T>)
    requires a <= b && |a| >= |b|
    ensures a == b
  {
    if x :| x in b && x !in a {
      SubsetSize(a, b - {x});
    }
  }

  lemma DifferenceSize<T>(a: set<T>, b: set<T>)
    requires a <= b
    ensures |b - a| == |b| - |a|
  {
    assert b == (b - a) + a;
  }

  lemma ConcatAssociates<T>(a: seq<T>, b: seq<T>, c: seq<T>)
    ensures (a + b) + c == a + (b + c)
  {}

  lemma PermutationLength<T>(a: seq<T>, b: seq<T>)
    requires multiset(a) == multiset(b)
    ensures |a| == |b|
  {
    assert |multiset(a)| == |a|;
    assert |multiset(b)| == |b|;
  }
}
