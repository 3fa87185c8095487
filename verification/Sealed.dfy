/**
 * Encrypted messages (sent_data_tracker.rs, frag_assembly.rs). The fragments first sent carry the sealed
 * bytes, but the bytes kept for repair are the plain ones: exactly when that goes wrong, and how.
 */
module Sealed {
  import opened Prelude
  import opened AckBitmap
  import opened Fragmentation
  import opened Assembler
  import opened SentData

  /** Sealing adds an authentication tag of 16 bytes. */
  const TAG_SIZE: nat := 16

  /** The encryption of a message under the shared secret; it may fail. */
  type Seal = (u32, seq<byte>) -> Option<seq<byte>>

  datatype Refusal = NoEncryptionKey | EncryptionError | Unsendable(error: SendError)

  function SealedFlags(options: SendOptions): SetFlags {
    SetFlag(SendFlags(options), IS_ENCRYPTED_BIT, true)
  }

  /** What is kept for repair: the plain bytes, with the fragment total of the sealed ones. */
  function SealedSet(data: seq<byte>, sealed: seq<byte>, now: nat, options: SendOptions): SentSet
    requires Sendable(sealed)
  {
    NewSentSet(sealed, now, options).(data := data)
  }

  /** A sealed message differs from a plain one in one flag, and its set in the bytes kept. */
  lemma SealedFieldsExactly(data: seq<byte>, sealed: seq<byte>, now: nat, options: SendOptions)
    requires Sendable(sealed)
    ensures SealedFlags(options) == 4 + (if options.key then 1 else 0) + (if options.expiration.Some? then 2 else 0)
    ensures var x := SealedSet(data, sealed, now, options);
      && x.data == data && x.fragTotal == FragTotal(sealed) && x.resendDelay == options.resendDelay
      && x.expiration == (if options.expiration.Some? then Some(now + options.expiration.value) else None)
      && x.lastSentPacket == now && x.completeSince == None && x.lastReceivedAck == None && x.unansweredAck == None
  {
    FlagsExactly(options, SealedSet(data, sealed, now, options));
    ThirdBit(SendFlags(options));
  }

  lemma ThirdBit(v: nat)
    requires v < 4
    ensures WithBit(v, 2, true) == v + 4
  {
    assert WithBit(v / 2, 1, true) == 2 * WithBit(v / 2 / 2, 0, true) + v / 2 % 2;
  }

  datatype Sending = Denied(refusal: Refusal) | Sending(fragments: seq<Fragment>, tracked: Option<SentSet>)

  method SendSealed(s: u32, data: seq<byte>, now: nat, options: SendOptions, seal: Option<Seal>) returns (r: Sending)
    ensures seal.None? <==> r == Denied(NoEncryptionKey)
    ensures seal.Some? && seal.value(s, data).None? <==> r == Denied(EncryptionError)
    ensures seal.Some? && seal.value(s, data).Some? ==>
      if Sendable(seal.value(s, data).value) then
        r == Sending(FragmentsOf(seal.value(s, data).value, s, SealedFlags(options)),
                     if options.key then Some(SealedSet(data, seal.value(s, data).value, now, options)) else None)
      else r == Denied(Unsendable(if seal.value(s, data).value == [] then SentMsgEmpty
      else SentMsgTooBig(|seal.value(s, data).value|)))
  {
    if seal.None? { return Denied(NoEncryptionKey); }
    var encrypted := seal.value(s, data);
    if encrypted.None? { return Denied(EncryptionError); }
    var sealed := encrypted.value;
    SendableLimit(sealed);
    var built := BuildFragmentsFromBytes(sealed, s, SealedFlags(options), false);
    match built
    case Refused(e) => return Denied(Unsendable(e));
    case Fragments(fragments, _) =>
      return Sending(fragments, if options.key then Some(SealedSet(data, sealed, now, options)) else None);
  }

  // ----- Repair -----

  datatype Repair = Crashed | Repaired(sent: seq<Fragment>)

  /** A repair round of any tracked message; `debug` says whether debug assertions are compiled in. */
  function RepairOf(set_: SentSet, s: u32, debug: bool): Repair {
    if !Sendable(set_.data) then Crashed
    else
      var all := FragmentsOf(set_.data, s, ResendFlags(set_));
      match set_.lastReceivedAck
      case None => Repaired(all)
      case Some(ReceivedAck(_, ack)) =>
        if debug && FragTotal(set_.data) != set_.fragTotal then Crashed
        else
          MissingInRange(ack, FragTotal(set_.data));
          Repaired(Pick(all, MissingIds(ack, FragTotal(set_.data))))
  }

  lemma MissingInRange(ack: Bitmap, fragTotal: u8)
    ensures forall id :: id in MissingIds(ack, fragTotal) ==> id <= fragTotal
  {}

  /** Sealing needs one more fragment exactly for these lengths. */
  predicate CrossesFragment(len: nat) {
    len % MAX_FRAGMENT_INNER_SIZE == 0 || len % MAX_FRAGMENT_INNER_SIZE > MAX_FRAGMENT_INNER_SIZE - TAG_SIZE
  }

  lemma CrossingCounts(len: nat)
    ensures FragmentCount(len + TAG_SIZE) == FragmentCount(len) + if CrossesFragment(len) then 1 else 0
  {}

  /**
   * Repairing an encrypted message panics exactly when the plain message is empty; with debug assertions,
   * after an acknowledgement, exactly when sealing needed one more fragment.
   */
  lemma RepairPanicsExactly(s: u32, data: seq<byte>, sealed: seq<byte>, now: nat, options: SendOptions,
                            ack: Option<ReceivedAck>)
    requires Sendable(sealed) && |sealed| == |data| + TAG_SIZE
    ensures var set_ := SealedSet(data, sealed, now, options).(lastReceivedAck := ack);
      && (RepairOf(set_, s, false).Crashed? <==> data == [])
      && (RepairOf(set_, s, true).Crashed? <==> data == [] || (ack.Some? && CrossesFragment(|data|)))
  {
    CrossingCounts(|data|);
    SendableLimit(sealed);
    SendableLimit(data);
  }

  // ----- Original and repaired fragments mixed -----

  /** A full set in which the ids in `original` came as first sent and the others came from a repair. */
  ghost predicate Mixed(m: map<u8, Fragment>, s: u32, data: seq<byte>, sealed: seq<byte>, options: SendOptions,
                        resent: SetFlags,
                        original: set<u8>)
    requires Sendable(data) && Sendable(sealed) && FragTotal(data) == FragTotal(sealed)
  {
    && m.Keys == Below(FragTotal(data) + 1)
    && forall id :: id in m ==>
         m[id] == if id in original then FragmentAt(sealed, s, SealedFlags(options), id)
           else FragmentAt(data, s, resent, id)
  }

  /** Only the sealed bytes open, and to the message. */
  ghost predicate Authentic(cipher: Cipher, s: u32, data: seq<byte>, sealed: seq<byte>) {
    cipher(s, sealed) == Some(data) && forall b: seq<byte> :: b != sealed ==> cipher(s, b) == None
  }

  /** The two messages have the same bytes in fragment `id`. */
  predicate SameChunk(data: seq<byte>, sealed: seq<byte>, id: nat) {
    Chunk(data, id) == Chunk(sealed, id)
  }

  /** What the chunks of a mixed set must be like for the message to come out. */
  ghost predicate Readable(data: seq<byte>, sealed: seq<byte>, original: set<u8>, leadSealed: bool)
    requires Sendable(data)
  {
    forall id :: id in Below(FragTotal(data) + 1) && (id in original) != leadSealed ==> SameChunk(data, sealed, id)
  }

  lemma ChunkFull(data: seq<byte>, i: nat)
    requires Sendable(data) && i < FragTotal(data)
    ensures |Chunk(data, i)| == MAX_FRAGMENT_INNER_SIZE
  {
    assert (i + 1) * MAX_FRAGMENT_INNER_SIZE <= |data|;
  }

  /** All parts but the last have the full size. */
  predicate FullParts(m: map<u8, Fragment>, n: nat)
    requires n <= 0x100
  {
    forall i: u8 :: i < n ==> i in m && |m[i].data| == MAX_FRAGMENT_INNER_SIZE
  }

  lemma {:induction false} JoinedLength(m: map<u8, Fragment>, n: nat)
    requires n <= 0x100 && FullParts(m, n)
    ensures |Joined(m, n)| == n * MAX_FRAGMENT_INNER_SIZE
  {
    if n > 0 { JoinedLength(m, n - 1); }
  }

  /** Parts of the same sizes join to the same bytes exactly when they are the same. */
  lemma {:induction false} JoinedSameExactly(a: map<u8, Fragment>, b: map<u8, Fragment>, n: nat)
    requires n <= 0x100 && (n > 0 ==> FullParts(a, n - 1) && FullParts(b, n - 1) && n - 1 in a && n - 1 in b)
    ensures Joined(a, n) == Joined(b, n) <==> forall i: u8 :: i < n ==> a[i].data == b[i].data
  {
    if n > 0 {
      var x, y := Joined(a, n - 1), Joined(b, n - 1);
      JoinedLength(a, n - 1);
      JoinedLength(b, n - 1);
      JoinedSameExactly(a, b, n - 1);
      if x + a[n - 1].data == y + b[n - 1].data {
        assert (x + a[n - 1].data)[..|x|] == x && (y + b[n - 1].data)[..|y|] == y;
        assert (x + a[n - 1].data)[|x|..] == a[n - 1].data && (y + b[n - 1].data)[|y|..] == b[n - 1].data;
      }
    }
  }

  function Parts(data: seq<byte>, s: u32, flags: SetFlags): map<u8, Fragment>
    requires Sendable(data)
  {
    map id | id in Below(FragTotal(data) + 1) :: FragmentAt(data, s, flags, id)
  }

  lemma PartsJoin(data: seq<byte>, s: u32, flags: SetFlags)
    requires Sendable(data)
    ensures Joined(Parts(data, s, flags), FragTotal(data) + 1) == data
    ensures FullParts(Parts(data, s, flags), FragTotal(data))
  {
    var ids := Below(FragTotal(data) + 1);
    assert forall i: u8 :: i <= FragTotal(data) ==> i in ids;
    JoinedWhole(Parts(data, s, flags), data);
    forall i: u8 | i < FragTotal(data) ensures |Parts(data, s, flags)[i].data| == MAX_FRAGMENT_INNER_SIZE {
      ChunkFull(data, i);
    }
  }

  lemma MixedFull(m: map<u8, Fragment>, s: u32, data: seq<byte>, sealed: seq<byte>, options: SendOptions,
                  resent: SetFlags,
                  original: set<u8>)
    requires Sendable(data) && Sendable(sealed) && FragTotal(data) == FragTotal(sealed)
    requires Mixed(m, s, data, sealed, options, resent, original)
    ensures |m| == FragTotal(data) + 1 <= 0x100 && FullParts(m, FragTotal(data)) && FragTotal(data) in m
  {
    hide Chunk;
    assert |m| == |m.Keys|;
    forall i: u8 | i <= FragTotal(data) ensures i in m
      && (i < FragTotal(data) ==> |m[i].data| == MAX_FRAGMENT_INNER_SIZE) {
      assert i in Below(FragTotal(data) + 1);
      if i < FragTotal(data) {
        ChunkFull(data, i);
        ChunkFull(sealed, i);
      }
    }
  }

  /** A mixed set joins to one of the two messages exactly when the chunks of the other one do not show. */
  lemma MixedJoins(m: map<u8, Fragment>, s: u32, data: seq<byte>, sealed: seq<byte>, options: SendOptions,
                   resent: SetFlags,
                   original: set<u8>, asSealed: bool)
    requires Sendable(data) && Sendable(sealed) && FragTotal(data) == FragTotal(sealed)
    requires Mixed(m, s, data, sealed, options, resent, original)
    ensures |m| <= 0x100
    ensures (Joined(m, |m|) == (if asSealed then sealed else data) <==> Readable(data, sealed, original, asSealed))
  {
    hide Joined;
    hide FullParts;
    hide Mixed;
    hide Parts;
    hide Readable;
    var n, message := FragTotal(data) + 1, if asSealed then sealed else data;
    var whole := Parts(message, s, resent);
    MixedFull(m, s, data, sealed, options, resent, original);
    PartsJoin(message, s, resent);
    SameParts(m, s, data, sealed, options, resent, original, asSealed);
    JoinedSameExactly(m, whole, n);
  }

  lemma SameParts(m: map<u8, Fragment>, s: u32, data: seq<byte>, sealed: seq<byte>, options: SendOptions,
                  resent: SetFlags, original: set<u8>, asSealed: bool)
    requires Sendable(data) && Sendable(sealed) && FragTotal(data) == FragTotal(sealed)
    requires Mixed(m, s, data, sealed, options, resent, original)
    ensures var (n, whole) := (FragTotal(data) + 1, Parts(if asSealed then sealed else data, s, resent));
      && (forall i: u8 :: i < n ==> i in m && i in whole)
      && (Readable(data, sealed, original, asSealed) <==> forall i: u8 :: i < n ==> m[i].data == whole[i].data)
  {
    hide Mixed;
    hide SameChunk;
    hide Parts;
    var ids, whole := Below(FragTotal(data) + 1), Parts(if asSealed then sealed else data, s, resent);
    forall i: u8 | i <= FragTotal(data) ensures i in ids && i in m && i in whole {
      SamePart(m, s, data, sealed, options, resent, original, asSealed, i);
    }
    forall i: u8 | i <= FragTotal(data)
      ensures m[i].data == whole[i].data <==> ((i in original) == asSealed || SameChunk(data, sealed, i))
    {
      SamePart(m, s, data, sealed, options, resent, original, asSealed, i);
    }
    assert forall i :: i in ids ==> i <= FragTotal(data);
    if forall i: u8 :: i <= FragTotal(data) ==> m[i].data == whole[i].data {
      forall i | i in ids && (i in original) != asSealed ensures SameChunk(data, sealed, i) {
        assert m[i].data == whole[i].data;
      }
    }
  }

  lemma SamePart(m: map<u8, Fragment>, s: u32, data: seq<byte>, sealed: seq<byte>, options: SendOptions,
                 resent: SetFlags, original: set<u8>, asSealed: bool, i: u8)
    requires Sendable(data) && Sendable(sealed) && FragTotal(data) == FragTotal(sealed) && i <= FragTotal(data)
    requires Mixed(m, s, data, sealed, options, resent, original)
    ensures var whole := Parts(if asSealed then sealed else data, s, resent);
      && i in m && i in whole
      && (m[i].data == whole[i].data <==> ((i in original) == asSealed || SameChunk(data, sealed, i)))
  {
    hide Chunk;
    assert i in Below(FragTotal(data) + 1);
  }

  /**
   * A full set of original and repaired fragments yields the message exactly when every fragment of the
   * other kind than the leading one has the same bytes in both messages. When the leading fragment is
   * an original one, the set is dropped otherwise; when it is a repaired one, wrong bytes are delivered.
   */
  lemma MixedReads(m: map<u8, Fragment>, s: u32, data: seq<byte>, sealed: seq<byte>, options: SendOptions,
                   resent: SetFlags,
                   original: set<u8>, cipher: Cipher, lead: Fragment)
    requires Sendable(data) && Sendable(sealed) && FragTotal(data) == FragTotal(sealed) && !IsEncrypted(resent)
    requires Mixed(m, s, data, sealed, options, resent, original) && lead in m.Values
    requires Authentic(cipher, s, data, sealed)
    ensures |m| <= 0x100
    ensures var (read, leadSealed) := (Transformed(m, s, Some(cipher), lead), lead.fragId in original);
      if Readable(data, sealed, original, leadSealed) then read == Some(data)
      else if leadSealed then read == None
      else read == Some(Joined(m, |m|)) && read.value != data
  {
    hide Joined;
    hide Readable;
    MixedJoins(m, s, data, sealed, options, resent, original, lead.fragId in original);
    LeadFlags(m, s, data, sealed, options, resent, original, lead);
  }

  /** All fragments of a mixed set agree on their number, and the leading one tells whether it is an original. */
  lemma LeadFlags(m: map<u8, Fragment>, s: u32, data: seq<byte>, sealed: seq<byte>, options: SendOptions,
                  resent: SetFlags,
                  original: set<u8>, lead: Fragment)
    requires Sendable(data) && Sendable(sealed) && FragTotal(data) == FragTotal(sealed) && !IsEncrypted(resent)
    requires Mixed(m, s, data, sealed, options, resent, original) && lead in m.Values
    ensures IsEncrypted(lead.flags) <==> lead.fragId in original
    ensures !exists id :: id in m && m[id].fragTotal != lead.fragTotal
  {
    hide Chunk;
    var id :| id in m && m[id] == lead;
    assert IsEncrypted(SealedFlags(options));
  }

  /** When sealing needed one more fragment, any set that holds fragments of both kinds is dropped. */
  lemma CrossingMixDropped(m: map<u8, Fragment>, s: u32, data: seq<byte>, sealed: seq<byte>, i: u8, j: u8,
                           cipher: Option<Cipher>, lead: Fragment)
    requires Sendable(data) && Sendable(sealed) && |sealed| == |data| + TAG_SIZE && CrossesFragment(|data|)
    requires i in m && PartOf(m[i], data) && j in m && PartOf(m[j], sealed)
    ensures |m| <= 0x100 && Transformed(m, s, cipher, lead) == None
  {
    AtMost256(m);
    CrossingCounts(|data|);
  }

  /** Wrong bytes do come out: the first fragment as first sent, the second from a repair and read first. */
  lemma MixedDeliversWrongBytes() returns (m: map<u8, Fragment>, data: seq<byte>, cipher: Cipher, lead: Fragment)
    ensures |m| == 2 && lead in m.Values && |data| == 1200
    ensures Mixed(m, 0, data, seq(1216, _ => 1), SendOptions(0, None, true), NO_FLAGS, {0})
    ensures Authentic(cipher, 0, data, seq(1216, _ => 1))
    ensures Transformed(m, 0, Some(cipher), lead).Some? && Transformed(m, 0, Some(cipher), lead).value != data
  {
    data := seq(1200, _ => 0);
    var plain, sealed: seq<byte>, options := data, seq(1216, _ => 1), SendOptions(0, None, true);
    cipher := (s, b) => if b == sealed then Some(plain) else None;
    m := map[0 := FragmentAt(sealed, 0, SealedFlags(options), 0), 1 := FragmentAt(data, 0, NO_FLAGS, 1)];
    lead := m[1];
    assert m.Keys == Below(2);
    assert lead in m.Values;
    NoFlagsSet();
    MixedReads(m, 0, data, sealed, options, NO_FLAGS, {0}, cipher, lead);
    assert Chunk(data, 0)[0] != Chunk(sealed, 0)[0];
    assert 0 in Below(2) && !SameChunk(data, sealed, 0);
  }
}
