/**
  Acceptance exactly as a debug build runs it: `sequence_number() + 1` is
  Rust's checked `+`, which panics when the peer's sequence number is
  2^32 - 1 instead of wrapping to 0 as RFC 793 sequence arithmetic does.
 */
module TcpDebugBuild {
  import opened Options
  import opened Wrapping
  import opened Tcp

  /** A call that returns a value, or that panics. */
  datatype Outcome<+T> = Returned(value: T) | Panicked

  /** `Connection::accept` with debug-build overflow checks on both `+ 1`s. */
  function AcceptAsWritten(ip: Ipv4View, seg: TcpView): (r: Outcome<Option<(Connection, Reply)>>)
    ensures r.Panicked? <==> seg.syn && seg.sequenceNumber == U32_MAX
    ensures r.Returned? ==> r.value == Accept(ip, seg)
  {
    if !seg.syn then Returned(None)
    else
      match (CheckedAdd(ISS, 1), CheckedAdd(seg.sequenceNumber, 1))
      case (Some(sendNxt), Some(recvNxt)) =>
        var c := Connection(
          state := SynRcvd,
          send := SendSequenceSpace(una := ISS, nxt := sendNxt, wnd := SEND_WINDOW, up := false, wl1 := 0, wl2 := 0, iss := ISS),
          recv := RecvSequenceSpace(nxt := recvNxt, wnd := seg.windowSize, up := false, irs := seg.sequenceNumber));
        Returned(Some((c, SynAck(c, ip, seg))))
      case _ => Panicked
  }

  /** The segment that shows it: a SYN numbered 2^32 - 1 panics, where wrapping acknowledges it with 0. */
  lemma SynAtMaxSequencePanics(ip: Ipv4View, seg: TcpView)
    requires seg.syn && seg.sequenceNumber == U32_MAX
    ensures AcceptAsWritten(ip, seg).Panicked?
    ensures Accept(ip, seg).Some? && Accept(ip, seg).value.1.tcp.acknowledgmentNumber == 0
  {
  }
}
