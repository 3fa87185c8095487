/** UDP packets on the wire (protocol/packet.rs). The checksum is a parameter. */
module Packet {
  import opened Prelude
  import opened BigEndian
  import opened Fragmentation
  import opened AckBitmap

  type Identity = s: seq<byte> | |s| == 4 witness [0, 0, 0, 0]
  type PubKey = s: seq<byte> | |s| == 32 witness seq(32, _ => 0)
  type Crc = seq<byte> -> u32

  datatype Variant =
    | FragmentPacket(fragment: Fragment)
    | Ack(seqId: u32, ack: Bitmap)
    | Syn(key: PubKey)
    | SynAck(key: PubKey)
    | Heartbeat
    | End(lastSeqId: u32)
    | Abort(lastSeqId: u32)

  datatype Packet = Packet(src: Identity, dst: Identity, variant: Variant)

  datatype ParseError = NotBigEnough | InvalidCrc | InvalidFragLayout(fragId: u8, fragTotal: u8)

  datatype Result<+T> = Ok(value: T) | Err(error: ParseError)

  const HEADER_SIZE: nat := 16
  const MAX_RCV_UDP_DATA_SIZE: nat := 1400

  // ----- The layout -----

  /** The bytes at offsets 12 and 13 tell the variants apart. */
  function Kind(v: Variant): (u8, u8) {
    match v
    case FragmentPacket(f) => (f.fragId, f.fragTotal)
    case Ack(_, _) => (255, 0)
    case Syn(_) => (255, 1)
    case SynAck(_) => (255, 2)
    case End(_) => (255, 3)
    case Abort(_) => (255, 4)
    case Heartbeat => (255, 10)
  }

  function Flags(v: Variant): SetFlags {
    if v.FragmentPacket? then v.fragment.flags else 0
  }

  function Payload(v: Variant): seq<byte> {
    match v
    case FragmentPacket(f) => U32(f.seqId) + f.data
    case Ack(seqId, ack) => U32(seqId) + ack
    case Syn(key) => key
    case SynAck(key) => key
    case End(id) => U32(id)
    case Abort(id) => U32(id)
    case Heartbeat => []
  }

  /** Everything the checksum covers. */
  function Body(p: Packet): seq<byte> {
    p.src + p.dst + [Kind(p.variant).0, Kind(p.variant).1] + U16(Flags(p.variant)) + Payload(p.variant)
  }

  function Wire(p: Packet, crc: Crc): seq<byte> {
    U32(crc(Body(p))) + Body(p)
  }

  // ----- The printer -----

  function PacketSize(v: Variant): nat {
    HEADER_SIZE +
    match v
    case FragmentPacket(f) => 4 + |f.data|
    case Ack(_, ack) => 4 + |ack|
    case Syn(_) => 32
    case SynAck(_) => 32
    case Heartbeat => 0
    case End(_) => 4
    case Abort(_) => 4
  }

  method WriteFrags(bytes: array<byte>, fragId: u8, fragTotal: u8)
    requires bytes.Length >= HEADER_SIZE
    modifies bytes
    ensures bytes[12..14] == [fragId, fragTotal]
    ensures bytes[14..16] == old(bytes[14..16]) && bytes[16..] == old(bytes[16..])
  {
    bytes[13] := fragTotal;
    bytes[12] := fragId;
  }

  method WriteFlags(bytes: array<byte>, flags: SetFlags)
    requires bytes.Length >= HEADER_SIZE
    modifies bytes
    ensures bytes[14..16] == U16(flags) && bytes[16..] == old(bytes[16..])
  {
    CopyInto(bytes, 14, U16(flags));
  }

  method WriteSeqId(bytes: array<byte>, seqId: u32)
    requires bytes.Length >= HEADER_SIZE + 4
    modifies bytes
    ensures bytes[16..] == U32(seqId) + old(bytes[20..])
  {
    CopyInto(bytes, 16, U32(seqId));
    assert bytes[16..] == bytes[16..20] + bytes[20..];
  }

  method WritePubKey(bytes: array<byte>, key: PubKey)
    requires bytes.Length == HEADER_SIZE + 32
    modifies bytes
    ensures bytes[16..] == key
  {
    CopyInto(bytes, 16, key);
    assert bytes[16..] == bytes[16..48];
  }

  /** Writes the payload, then the flags and the kind. */
  method WriteVariant(bytes: array<byte>, v: Variant)
    requires bytes.Length == PacketSize(v)
    modifies bytes
    ensures bytes[12..14] == [Kind(v).0, Kind(v).1]
    ensures bytes[14..16] == U16(Flags(v))
    ensures bytes[16..] == Payload(v)
  {
    match v {
      case FragmentPacket(f) =>
        CopyInto(bytes, 20, f.data);
        assert bytes[20..] == f.data;
        WriteSeqId(bytes, f.seqId);
        WriteFlags(bytes, f.flags);
        WriteFrags(bytes, f.fragId, f.fragTotal);
      case Ack(seqId, ack) =>
        CopyInto(bytes, 20, ack);
        assert bytes[20..] == ack;
        WriteSeqId(bytes, seqId);
        WriteFlags(bytes, 0);
        WriteFrags(bytes, 255, 0);
      case Syn(key) =>
        WritePubKey(bytes, key);
        WriteFlags(bytes, 0);
        WriteFrags(bytes, 255, 1);
      case SynAck(key) =>
        WritePubKey(bytes, key);
        WriteFlags(bytes, 0);
        WriteFrags(bytes, 255, 2);
      case End(lastSeqId) =>
        assert bytes[20..] == [];
        WriteSeqId(bytes, lastSeqId);
        WriteFlags(bytes, 0);
        WriteFrags(bytes, 255, 3);
      case Abort(lastSeqId) =>
        assert bytes[20..] == [];
        WriteSeqId(bytes, lastSeqId);
        WriteFlags(bytes, 0);
        WriteFrags(bytes, 255, 4);
      case Heartbeat =>
        WriteFlags(bytes, 0);
        WriteFrags(bytes, 255, 10);
    }
  }

  /** The identities and the checksum come last; the checksum covers everything after it. */
  method ToBytes(p: Packet, crc: Crc) returns (bytes: array<byte>)
    ensures fresh(bytes) && bytes[..] == Wire(p, crc)
  {
    hide Kind;
    hide Flags;
    hide Payload;
    hide U16;
    hide U32;
    bytes := new byte[PacketSize(p.variant)](_ => 0);
    WriteVariant(bytes, p.variant);
    ghost var tail := bytes[12..];
    assert tail == bytes[12..14] + bytes[14..16] + bytes[16..];
    CopyInto(bytes, 4, p.src);
    assert bytes[12..] == bytes[8..][4..] == tail;
    CopyInto(bytes, 8, p.dst);
    assert bytes[4..] == bytes[..8][4..] + bytes[8..12] + bytes[12..] == Body(p);
    CopyInto(bytes, 0, U32(crc(bytes[4..])));
    assert bytes[..] == bytes[..4] + bytes[4..];
  }

  // ----- The parser -----

  function FromBytes(bytes: seq<byte>, crc: Crc): Result<Packet> {
    if |bytes| < HEADER_SIZE then Err(NotBigEnough)
    else if crc(bytes[4..]) != ReadU32(bytes[0..4]) then Err(InvalidCrc)
    else
      var data := bytes[HEADER_SIZE..];
      match ParseVariant(bytes[12], bytes[13], ReadU16(bytes[14..16]), data)
      case Ok(v) => Ok(Packet(bytes[4..8], bytes[8..12], v))
      case Err(e) => Err(e)
  }

  function ParseVariant(fragId: u8, fragTotal: u8, flags: SetFlags, data: seq<byte>): Result<Variant> {
    if fragId == 255 && fragTotal == 0 then
      if |data| < 4 then Err(NotBigEnough) else Ok(Ack(ReadU32(data[..4]), data[4..]))
    else if fragId == 255 && fragTotal == 1 then
      if |data| < 32 then Err(NotBigEnough) else Ok(Syn(data[..32]))
    else if fragId == 255 && fragTotal == 2 then
      if |data| < 32 then Err(NotBigEnough) else Ok(SynAck(data[..32]))
    else if fragId == 255 && fragTotal == 3 then
      if |data| < 4 then Err(NotBigEnough) else Ok(End(ReadU32(data[..4])))
    else if fragId == 255 && fragTotal == 4 then
      if |data| < 4 then Err(NotBigEnough) else Ok(Abort(ReadU32(data[..4])))
    else if fragId == 255 && fragTotal == 10 then Ok(Heartbeat)
    else if fragId <= fragTotal then
      if |data| < 4 then Err(NotBigEnough)
      else Ok(FragmentPacket(Fragment(ReadU32(data[..4]), fragId, fragTotal, flags, data[4..])))
    else Err(InvalidFragLayout(fragId, fragTotal))
  }

  // ----- Printing and parsing -----

  /** The packets the format can carry. */
  predicate Printable(v: Variant) {
    v.FragmentPacket? ==> v.fragment.fragId <= v.fragment.fragTotal
  }

  lemma WireFields(p: Packet, crc: Crc)
    ensures var b := Wire(p, crc);
      && |b| == PacketSize(p.variant)
      && b[0..4] == U32(crc(b[4..]))
      && b[4..8] == p.src && b[8..12] == p.dst
      && b[12] == Kind(p.variant).0 && b[13] == Kind(p.variant).1
      && b[14..16] == U16(Flags(p.variant)) && b[16..] == Payload(p.variant)
  {
    assert Wire(p, crc)[4..] == Body(p);
  }

  /** The bytes of every packet, offset by offset. */
  lemma VariantBytes(p: Packet, crc: Crc)
    ensures var (v, b) := (p.variant, Wire(p, crc));
      && |b| >= 16 && Word(b[..4]) == crc(b[4..]) && b[4..8] == p.src && b[8..12] == p.dst
      && match v {
        case FragmentPacket(f) =>
          && |b| == 20 + |f.data| && b[12] == f.fragId && b[13] == f.fragTotal
          && Word([0, 0] + b[14..16]) == f.flags && Word(b[16..20]) == f.seqId && b[20..] == f.data
        case Ack(s, ack) => |b| == 20 + |ack| && b[12..16] == [255, 0, 0, 0] && Word(b[16..20]) == s && b[20..] == ack
        case Syn(key) => b[12..16] == [255, 1, 0, 0] && b[16..] == key
        case SynAck(key) => b[12..16] == [255, 2, 0, 0] && b[16..] == key
        case End(s) => |b| == 20 && b[12..16] == [255, 3, 0, 0] && Word(b[16..20]) == s
        case Abort(s) => |b| == 20 && b[12..16] == [255, 4, 0, 0] && Word(b[16..20]) == s
        case Heartbeat => b[12..] == [255, 10, 0, 0]
      }
  {
    var v, b := p.variant, Wire(p, crc);
    WireFields(p, crc);
    WordOf(crc(b[4..]));
    assert b[..4] == b[0..4] && b[12..16] == [b[12], b[13]] + b[14..16];
    hide Wire;
    match v {
      case FragmentPacket(f) =>
        WordOf(f.seqId);
        assert b[16..20] == b[16..][..4] == U32(f.seqId) && b[20..] == b[16..][4..] == f.data;
        assert [0, 0] + U16(f.flags) == U32(f.flags);
        WordOf(f.flags);
      case Ack(s, ack) =>
        WordOf(s);
        assert b[16..20] == b[16..][..4] == U32(s) && b[20..] == b[16..][4..] == ack;
      case End(s) =>
        WordOf(s);
        assert b[16..20] == b[16..] == U32(s);
      case Abort(s) =>
        WordOf(s);
        assert b[16..20] == b[16..] == U32(s);
      case Heartbeat => assert b[12..] == b[12..16];
      case _ =>
    }
  }

  lemma VariantRoundTrip(v: Variant)
    ensures var r := ParseVariant(Kind(v).0, Kind(v).1, Flags(v), Payload(v));
      if Printable(v) then r == Ok(v) else r != Ok(v)
  {
    match v
    case FragmentPacket(f) => SplitAfterWord(f.seqId, f.data);
    case Ack(seqId, ack) => SplitAfterWord(seqId, ack);
    case End(id) => SplitAfterWord(id, []);
    case Abort(id) => SplitAfterWord(id, []);
    case Syn(key) => assert key[..32] == key;
    case SynAck(key) => assert key[..32] == key;
    case Heartbeat =>
  }

  lemma SplitAfterWord(w: u32, rest: seq<byte>)
    ensures ReadU32((U32(w) + rest)[..4]) == w && (U32(w) + rest)[4..] == rest
    ensures (rest == [] ==> U32(w) + rest == U32(w))
  {
    ReadAfterWrite(w);
    assert (U32(w) + rest)[..4] == U32(w);
  }

  /** The parser gives back what was printed exactly when a fragment's id is not beyond its total. */
  lemma ParseAfterPrint(p: Packet, crc: Crc)
    ensures FromBytes(Wire(p, crc), crc) == Ok(p) <==> Printable(p.variant)
  {
    WireFields(p, crc);
    VariantRoundTrip(p.variant);
    ReadAfterWrite(crc(Wire(p, crc)[4..]));
    ReadU16AfterWrite(Flags(p.variant));
  }

  lemma ReadU16AfterWrite(w: u16)
    ensures ReadU16(U16(w)) == w
  {}

  /** Nothing that the printer would not write again: no stray flags and no trailing bytes. */
  predicate Canonical(bytes: seq<byte>, v: Variant)
    requires |bytes| >= HEADER_SIZE
  {
    v.FragmentPacket? || (bytes[14] == 0 && bytes[15] == 0 && (v.Ack? || |bytes| == PacketSize(v)))
  }

  /** Parsing forgets nothing but the flags and the trailing bytes of packets that are no fragments. */
  lemma PrintAfterParse(bytes: seq<byte>, crc: Crc)
    requires FromBytes(bytes, crc).Ok?
    ensures var p := FromBytes(bytes, crc).value;
      Printable(p.variant) && (Wire(p, crc) == bytes <==> Canonical(bytes, p.variant))
  {
    var p := FromBytes(bytes, crc).value;
    PayloadParsed(bytes[12], bytes[13], ReadU16(bytes[14..16]), bytes[16..]);
    WireFields(p, crc);
    if Canonical(bytes, p.variant) {
      FlagsAgain(bytes, p.variant);
      BodyAgain(bytes, p);
      WriteAfterRead(bytes[0..4]);
      assert bytes == bytes[0..4] + bytes[4..];
    }
  }

  lemma PayloadParsed(fragId: u8, fragTotal: u8, flags: SetFlags, data: seq<byte>)
    requires ParseVariant(fragId, fragTotal, flags, data).Ok?
    ensures var v := ParseVariant(fragId, fragTotal, flags, data).value;
      && Printable(v) && Kind(v) == (fragId, fragTotal) && (v.FragmentPacket? ==> v.fragment.flags == flags)
      && |Payload(v)| == PacketSize(v) - HEADER_SIZE && Payload(v) <= data
      && (v.FragmentPacket? || v.Ack? ==> Payload(v) == data)
  {
    if |data| >= 4 {
      WriteAfterRead(data[..4]);
      assert data == data[..4] + data[4..];
    }
  }

  lemma FlagsAgain(bytes: seq<byte>, v: Variant)
    requires |bytes| >= HEADER_SIZE && Canonical(bytes, v)
    requires v.FragmentPacket? ==> v.fragment.flags == ReadU16(bytes[14..16])
    ensures U16(Flags(v)) == bytes[14..16]
  {
    WriteAfterRead16(bytes[14..16]);
  }

  lemma BodyAgain(bytes: seq<byte>, p: Packet)
    requires |bytes| == PacketSize(p.variant) && Payload(p.variant) == bytes[16..]
    requires p.src == bytes[4..8] && p.dst == bytes[8..12]
    requires Kind(p.variant) == (bytes[12], bytes[13]) && U16(Flags(p.variant)) == bytes[14..16]
    ensures Body(p) == bytes[4..]
  {
    assert [bytes[12], bytes[13]] == bytes[12..14];
  }
}
