/**
  The TCP connection record of the user-space stack and its one piece of
  protocol logic: accepting an inbound segment (the LISTEN-state "SYN bit
  set" step of section 3.9 of RFC 793) and building the SYN+ACK reply.
  Headers are plain field records; their byte encoding, the checksum and the
  network interface are not part of this model.
 */
module Tcp {
  import opened Options
  import opened Wrapping

  /** Protocol state of a connection (the three states the source declares). */
  datatype State = Closed | Listen | SynRcvd

  /**
    Send sequence variables (section 3.2 of RFC 793). The diagram's regions:
    [una, nxt) is sent and unacknowledged, [nxt, una + wnd) may be sent.
   */
  datatype SendSequenceSpace = SendSequenceSpace(
    una: u32,   // SND.UNA
    nxt: u32,   // SND.NXT
    wnd: u16,   // SND.WND
    up: bool,   // SND.UP
    wl1: usize, // SND.WL1
    wl2: usize, // SND.WL2
    iss: u32    // ISS
  )

  /**
    Receive sequence variables (section 3.2 of RFC 793). The diagram's
    region [nxt, nxt + wnd) holds the sequence numbers that may be received.
   */
  datatype RecvSequenceSpace = RecvSequenceSpace(
    nxt: u32,   // RCV.NXT
    wnd: u16,   // RCV.WND
    up: bool,   // RCV.UP
    irs: u32    // IRS
  )

  datatype Connection = Connection(state: State, recv: RecvSequenceSpace, send: SendSequenceSpace)

  datatype Ipv4Addr = Ipv4Addr(a: u8, b: u8, c: u8, d: u8)

  /** The fields of a decoded inbound IPv4 header that acceptance reads. */
  datatype Ipv4View = Ipv4View(source: Ipv4Addr, destination: Ipv4Addr)

  /** The fields of a decoded inbound TCP header. */
  datatype TcpView = TcpView(
    sourcePort: u16,
    destinationPort: u16,
    sequenceNumber: u32,
    acknowledgmentNumber: u32,
    windowSize: u16,
    syn: bool,
    ack: bool,
    fin: bool,
    rst: bool,
    psh: bool,
    urg: bool,
    ece: bool,
    cwr: bool,
    ns: bool
  )

  /** An outbound TCP header, as a field record. */
  datatype TcpHeader = TcpHeader(
    sourcePort: u16,
    destinationPort: u16,
    sequenceNumber: u32,
    acknowledgmentNumber: u32,
    dataOffset: u8,        // header length in 32-bit words
    windowSize: u16,
    urgentPointer: u16,
    syn: bool,
    ack: bool,
    fin: bool,
    rst: bool,
    psh: bool,
    urg: bool,
    ece: bool,
    cwr: bool,
    ns: bool
  )

  /** An outbound IPv4 header, as a field record. */
  datatype Ipv4Header = Ipv4Header(
    payloadLen: u16,
    timeToLive: u8,
    protocol: u8,
    source: Ipv4Addr,
    destination: Ipv4Addr
  )

  /** One outbound IP datagram carrying a TCP segment with no data. */
  datatype Reply = Reply(ip: Ipv4Header, tcp: TcpHeader)

  const ISS: u32 := 0                  // the fixed initial send sequence number
  const SEND_WINDOW: u16 := 10         // the fixed send window
  const TTL: u8 := 64
  const PROTOCOL_TCP: u8 := 6
  const TCP_MIN_DATA_OFFSET: u8 := 5   // a header without options: five words

  /** Length in bytes of a TCP header: its data offset in 32-bit words, times four. */
  function HeaderLen(h: TcpHeader): u16
  {
    4 * h.dataOffset as u16
  }

  /** The sequence numbers sent and not yet acknowledged: [SND.UNA, SND.NXT). */
  predicate Unacknowledged(s: SendSequenceSpace, n: u32)
  {
    InWindow(s.una, Offset(s.una, s.nxt) as int, n)
  }

  /** The sequence numbers that may be sent but are not sent yet: [SND.NXT, SND.UNA + SND.WND). */
  predicate Sendable(s: SendSequenceSpace, n: u32)
  {
    InWindow(s.nxt, s.wnd as int - Offset(s.una, s.nxt) as int, n)
  }

  /** The sequence numbers the receiver will accept next: [RCV.NXT, RCV.NXT + RCV.WND). */
  predicate Receivable(r: RecvSequenceSpace, n: u32)
  {
    InWindow(r.nxt, r.wnd as int, n)
  }

  /** The order of the send diagram: SND.UNA <= SND.NXT <= SND.UNA + SND.WND, modulo 2^32. */
  predicate SendSpaceOrdered(s: SendSequenceSpace)
  {
    Offset(s.una, s.nxt) as int <= s.wnd as int
  }

  /** The send space a new connection starts with: the SYN (sequence number ISS) is sent and unacknowledged. */
  function InitialSendSpace(): (s: SendSequenceSpace)
    ensures s.iss == ISS && s.una == s.iss
    ensures Offset(s.una, s.nxt) == 1
    ensures s.wnd == SEND_WINDOW && !s.up && s.wl1 == 0 && s.wl2 == 0
    ensures SendSpaceOrdered(s)
  {
    SendSequenceSpace(una := ISS, nxt := ISS + 1, wnd := SEND_WINDOW, up := false, wl1 := 0, wl2 := 0, iss := ISS)
  }

  /**
    The receive space a SYN opens: IRS is the peer's sequence number and
    RCV.NXT is one past it (the SYN occupies one sequence number), modulo 2^32.
   */
  function InitialRecvSpace(seg: TcpView): (r: RecvSequenceSpace)
    ensures r.irs == seg.sequenceNumber
    ensures Offset(r.irs, r.nxt) == 1
    ensures r.wnd == seg.windowSize && !r.up
  {
    RecvSequenceSpace(nxt := WrappingAdd(seg.sequenceNumber, 1), wnd := seg.windowSize, up := false, irs := seg.sequenceNumber)
  }

  /** A TCP header as a new header with these ports, sequence number and window starts: no flags, no options. */
  function NewTcpHeader(sourcePort: u16, destinationPort: u16, sequenceNumber: u32, windowSize: u16): (h: TcpHeader)
    ensures h.sourcePort == sourcePort && h.destinationPort == destinationPort
    ensures h.sequenceNumber == sequenceNumber && h.windowSize == windowSize
    ensures h.acknowledgmentNumber == 0 && h.urgentPointer == 0
    ensures h.dataOffset == TCP_MIN_DATA_OFFSET
    ensures !(h.syn || h.ack || h.fin || h.rst || h.psh || h.urg || h.ece || h.cwr || h.ns)
  {
    TcpHeader(sourcePort, destinationPort, sequenceNumber, 0, TCP_MIN_DATA_OFFSET, windowSize, 0,
              false, false, false, false, false, false, false, false, false)
  }

  /** The SYN+ACK that answers `seg` for the new connection `c`, sent back the way `seg` came. */
  function SynAck(c: Connection, ip: Ipv4View, seg: TcpView): (reply: Reply)
    ensures reply.tcp.sourcePort == seg.destinationPort && reply.tcp.destinationPort == seg.sourcePort
    ensures reply.tcp.sequenceNumber == c.send.iss
    ensures reply.tcp.acknowledgmentNumber == c.recv.nxt
    ensures reply.tcp.syn && reply.tcp.ack
    ensures !(reply.tcp.fin || reply.tcp.rst || reply.tcp.psh || reply.tcp.urg)
    ensures !(reply.tcp.ece || reply.tcp.cwr || reply.tcp.ns)
    ensures reply.tcp.windowSize == c.send.wnd
    ensures reply.ip.source == ip.destination && reply.ip.destination == ip.source
    ensures reply.ip.timeToLive == 64 && reply.ip.protocol == PROTOCOL_TCP
    ensures reply.ip.payloadLen == HeaderLen(reply.tcp) == 20
  {
    var header := NewTcpHeader(seg.destinationPort, seg.sourcePort, c.send.iss, c.send.wnd);
    var synAck := header.(acknowledgmentNumber := c.recv.nxt, syn := true, ack := true);
    Reply(Ipv4Header(HeaderLen(synAck), TTL, PROTOCOL_TCP, ip.destination, ip.source), synAck)
  }

  /**
    Connection acceptance: a segment with SYN set opens a connection in
    SYN-RECEIVED and is answered with a SYN+ACK; any other segment opens
    nothing and is not answered.
   */
  function Accept(ip: Ipv4View, seg: TcpView): (r: Option<(Connection, Reply)>)
    ensures r.Some? <==> seg.syn
    ensures r.Some? ==> r.value.0.state == SynRcvd
    ensures r.Some? ==> r.value.0.send == InitialSendSpace()
    ensures r.Some? ==> r.value.0.recv == InitialRecvSpace(seg)
    ensures r.Some? ==> r.value.1 == SynAck(r.value.0, ip, seg)
  {
    if !seg.syn then None
    else
      var c := Connection(state := SynRcvd, send := InitialSendSpace(), recv := InitialRecvSpace(seg));
      Some((c, SynAck(c, ip, seg)))
  }

  /** Handling a segment on an existing connection: nothing is done and nothing is sent. */
  function OnPacket(c: Connection, ip: Ipv4View, seg: TcpView): (r: (Connection, seq<Reply>))
    ensures r.0 == c
    ensures r.1 == []
  {
    (c, [])
  }
}
