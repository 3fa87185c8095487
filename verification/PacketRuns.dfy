/** The wire format carries everything the delivery engine puts on the network. */
module PacketRuns {
  import opened AckBitmap
  import opened Assembler
  import opened Packet
  import D = Delivery

  const MAX_ACK_SIZE: nat := 32

  /** A packet of the engine: one of its fragments or one of its acknowledgements. */
  predicate InNetwork(v: Variant, st: D.State) {
    match v
    case FragmentPacket(f) => f in st.fragments
    case Ack(s, ack) => (s, ack) in st.acks
    case _ => false
  }

  ghost predicate AcksFit(st: D.State) {
    forall a :: a in st.acks ==> |a.1| <= MAX_ACK_SIZE
  }

  lemma GeneratedFits(set_: AssemblySet, ack: Bitmap)
    requires set_.MayAcknowledge(ack)
    ensures |ack| <= MAX_ACK_SIZE
  {
    match set_.state
    case Complete(_, fragTotal) =>
    case Incomplete(m) => var id :| id in m && Fits(m.Keys, m[id].fragTotal)
      && ack == BitmapOf(m.Keys, m[id].fragTotal);
  }

  lemma NextKeepsAcksFit(st: D.State, step: D.Step, st': D.State)
    requires AcksFit(st) && D.Next(st, step, st')
    ensures AcksFit(st')
  {
    match step
    case ReceiverTick(now, generated) =>
      forall a | a in generated ensures |a.1| <= MAX_ACK_SIZE {
        GeneratedFits(st.pending[a.0], a.1);
      }
    case _ =>
  }

  lemma {:induction false} RunKeepsAcksFit(r: D.Run, k: nat)
    requires r.Valid() && k < |r.states|
    ensures AcksFit(r.states[k])
  {
    if k > 0 {
      RunKeepsAcksFit(r, k - 1);
      assert r.StepsTo(k - 1);
      NextKeepsAcksFit(r.states[k - 1], r.steps[k - 1], r.states[k]);
    }
  }

  /**
   * In every run, every packet on the network fits the receive buffer once printed, and the parser at the
   * other end gives it back.
   */
  lemma NetworkTransparent(r: D.Run, k: nat, p: Packet, crc: Crc)
    requires r.Valid() && k < |r.states| && InNetwork(p.variant, r.states[k])
    ensures |Wire(p, crc)| <= MAX_RCV_UDP_DATA_SIZE && FromBytes(Wire(p, crc), crc) == Ok(p)
  {
    D.RunKeepsInv(r, k);
    RunKeepsAcksFit(r, k);
    WireFields(p, crc);
    ParseAfterPrint(p, crc);
    if p.variant.FragmentPacket? {
      var f := p.variant.fragment;
      assert D.Genuine(f, f.seqId, r.states[k].accepted[f.seqId]);
    }
  }

  /** The packets of the handshake and of the end of a connection fit and come back too. */
  lemma ControlTransparent(p: Packet, crc: Crc)
    requires !p.variant.FragmentPacket? && !p.variant.Ack?
    ensures |Wire(p, crc)| <= 48 && FromBytes(Wire(p, crc), crc) == Ok(p)
  {
    WireFields(p, crc);
    ParseAfterPrint(p, crc);
  }
}
