/** Big-endian words in byte sequences and byte buffers. */
module BigEndian {
  import opened Prelude

  function U16(w: u16): (b: seq<byte>)
    ensures |b| == 2
  {
    [w / 0x100, w % 0x100]
  }

  function U32(w: u32): (b: seq<byte>)
    ensures |b| == 4
  {
    U16(w / 0x1_0000) + U16(w % 0x1_0000)
  }

  function ReadU16(b: seq<byte>): u16
    requires |b| == 2
  {
    var hi: nat, lo: nat := b[0], b[1];
    hi * 0x100 + lo
  }

  function ReadU32(b: seq<byte>): u32
    requires |b| == 4
  {
    var hi: nat, lo: nat := ReadU16(b[..2]), ReadU16(b[2..]);
    hi * 0x1_0000 + lo
  }

  lemma ReadAfterWrite(w: u32)
    ensures ReadU32(U32(w)) == w
  {
    assert U32(w)[..2] == U16(w / 0x1_0000) && U32(w)[2..] == U16(w % 0x1_0000);
  }

  lemma WriteAfterRead(b: seq<byte>)
    requires |b| == 4
    ensures U32(ReadU32(b)) == b
  {
    var hi, lo := ReadU16(b[..2]), ReadU16(b[2..]);
    assert ReadU32(b) / 0x1_0000 == hi && ReadU32(b) % 0x1_0000 == lo;
    assert U16(hi) == b[..2] && U16(lo) == b[2..];
  }

  lemma WriteAfterRead16(b: seq<byte>)
    requires |b| == 2
    ensures U16(ReadU16(b)) == b
  {}

  /** The number that four bytes stand for, the first one weighing most. */
  function Word(b: seq<byte>): nat
    requires |b| == 4
  {
    var first: nat, second: nat, third: nat, last: nat := b[0], b[1], b[2], b[3];
    first * 0x100_0000 + second * 0x1_0000 + third * 0x100 + last
  }

  lemma WordOf(w: u32)
    ensures Word(U32(w)) == w
  {}

  /** Copies `part` into the buffer at `at` and leaves the rest alone. */
  method CopyInto(buffer: array<byte>, at: nat, part: seq<byte>)
    requires at + |part| <= buffer.Length
    modifies buffer
    ensures buffer[..at] == old(buffer[..at])
    ensures buffer[at..at + |part|] == part
    ensures buffer[at + |part|..] == old(buffer[at + |part|..])
  {
    for n := 0 to |part|
      invariant forall k :: 0 <= k < buffer.Length ==>
        buffer[k] == if at <= k < at + n then part[k - at] else old(buffer[k])
    {
      buffer[at + n] := part[n];
    }
  }
}
