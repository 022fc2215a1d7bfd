/**
  Properties of connection acceptance that relate several calls, or that
  read the sequence-space diagrams against the state acceptance creates.
 */
module TcpProperties {
  import opened Options
  import opened Wrapping
  import opened Tcp

  /** Two segments that differ at most in the control bits other than SYN and in the acknowledgment number. */
  predicate SameButForNonSynControl(a: TcpView, b: TcpView)
  {
    a.(acknowledgmentNumber := 0, ack := false, fin := false, rst := false, psh := false, urg := false,
       ece := false, cwr := false, ns := false)
    == b.(acknowledgmentNumber := 0, ack := false, fin := false, rst := false, psh := false, urg := false,
       ece := false, cwr := false, ns := false)
  }

  /** Acceptance examines SYN alone: ACK, FIN, RST, PSH, URG, ECE, CWR, NS and the acknowledgment number change nothing. */
  lemma AcceptLooksOnlyAtSyn(ip: Ipv4View, a: TcpView, b: TcpView)
    requires SameButForNonSynControl(a, b)
    ensures Accept(ip, a) == Accept(ip, b)
  {
  }

  /** So a segment carrying both SYN and RST still opens a connection and is answered. */
  lemma SynRstIsAccepted(ip: Ipv4View, seg: TcpView)
    requires seg.syn && seg.rst
    ensures Accept(ip, seg).Some?
    ensures Accept(ip, seg).value.0.state == SynRcvd
  {
  }

  /** Region 3 of the send diagram holds SND.UNA + SND.WND - SND.NXT numbers, those from SND.NXT on. */
  lemma {:induction false} SendableListed(s: SendSequenceSpace, n: u32)
    requires SendSpaceOrdered(s)
    ensures Sendable(s, n) <==> n in WindowNumbers(s.nxt, s.wnd as nat - Offset(s.una, s.nxt) as nat)
  {
    InWindowListed(s.nxt, s.wnd as nat - Offset(s.una, s.nxt) as nat, n);
  }

  /** Region 2 of the receive diagram holds RCV.WND numbers, those from RCV.NXT on. */
  lemma {:induction false} ReceivableListed(r: RecvSequenceSpace, n: u32)
    ensures Receivable(r, n) <==> n in WindowNumbers(r.nxt, r.wnd as nat)
  {
    InWindowListed(r.nxt, r.wnd as nat, n);
  }

  /**
    The fresh send space against its diagram: only the SYN (ISS) is sent
    and unacknowledged, and the nine numbers after it may still be sent.
   */
  lemma FreshSendSpaceRegions(n: u32)
    ensures Unacknowledged(InitialSendSpace(), n) <==> n == ISS
    ensures Sendable(InitialSendSpace(), n) <==> ISS < n <= ISS + 9
  {
  }

  /**
    An accepted SYN is consumed: RCV.NXT is the sequence number right after
    the peer's SYN, the SYN's own number is no longer receivable, and the
    SYN+ACK acknowledges exactly it, also when the peer's number is 2^32 - 1.
   */
  lemma AcceptConsumesSyn(ip: Ipv4View, seg: TcpView)
    requires seg.syn
    ensures !Receivable(Accept(ip, seg).value.0.recv, seg.sequenceNumber)
    ensures seg.windowSize > 0 ==> Receivable(Accept(ip, seg).value.0.recv, Accept(ip, seg).value.1.tcp.acknowledgmentNumber)
    ensures Offset(seg.sequenceNumber, Accept(ip, seg).value.1.tcp.acknowledgmentNumber) == 1
  {
  }

  /** The SYN+ACK advertises the fixed send window whatever window the peer advertised. */
  lemma ReplyWindowIgnoresPeer(ip: Ipv4View, seg: TcpView, w: u16)
    requires seg.syn
    ensures Accept(ip, seg).value.1 == Accept(ip, seg.(windowSize := w)).value.1
    ensures Accept(ip, seg).value.1.tcp.windowSize == SEND_WINDOW
  {
  }

  /** The SYN+ACK is addressed back to the sender: swapping its endpoints gives the inbound segment's. */
  lemma ReplyReturnsToSender(ip: Ipv4View, seg: TcpView)
    requires seg.syn
    ensures var reply := Accept(ip, seg).value.1;
      Ipv4View(reply.ip.destination, reply.ip.source) == ip
      && (reply.tcp.destinationPort, reply.tcp.sourcePort) == (seg.sourcePort, seg.destinationPort)
  {
  }
}
