# rust-tcp connection acceptance, in Dafny

This project models the core of a small user-space TCP stack written in Rust.
The stack reads raw IPv4 frames from a TUN device. Its one piece of protocol
logic is `Connection::accept` in `src/tcp.rs`. That function handles the
LISTEN-state "SYN bit set" step of section 3.9 of RFC 793. A segment without
SYN opens nothing. A segment with SYN opens a connection in SYN-RECEIVED
and is answered with a SYN+ACK.

The model is in five files:

- `wrapping.dfy` (module `Wrapping`) covers Rust's `u8`/`u16`/`u32`/`usize`.
  It also gives the modulo-2^32 arithmetic of sequence numbers:
  - `WrappingAdd` and `Offset` are `wrapping_add` and `wrapping_sub`;
  - `CheckedAdd` is a debug build's panicking `+`;
  - `InWindow` is the half-open interval `[start, start + len)` of the
    sequence-space diagrams.
- `tcp.dfy` (module `Tcp`) has the connection record and acceptance itself:
  - `State`, `SendSequenceSpace`, `RecvSequenceSpace` and `Connection`;
  - the decoded inbound headers (`Ipv4View`, `TcpView`) and the outbound
    headers (`Ipv4Header`, `TcpHeader`) as field records;
  - `Accept`, the reply builder `SynAck` and the no-op `OnPacket`.
- `option.dfy` (module `Options`) holds the `Option` type that acceptance
  returns.
- `tcp_properties.dfy` (module `TcpProperties`) holds lemmas that relate
  several calls, or that check the new state against the send and receive
  diagrams. `tcp_debug.dfy` (module `TcpDebugBuild`) models acceptance as a
  debug build runs it (see Findings).

Some choices of the code are worth naming:

- SND.NXT starts at ISS + 1 and SND.UNA at ISS, as the LISTEN-state SYN step
  of RFC 793 prescribes. The SYN being sent counts as sent and unacknowledged.
- Only the SYN bit is examined, so SYN+RST, SYN+FIN and SYN+ACK segments are
  accepted too.
- SND.WND is the fixed value 10, and that is the window the SYN+ACK
  advertises. RCV.WND is copied from the peer's window.
- ISS is the constant 0.

`RCV.NXT = IRS + 1` is modelled with wrap-around modulo 2^32. This is what a
release build computes and what RFC 793 means. A debug build panics instead;
see Findings.

## Model

| member | source | states |
|---|---|---|
| `Wrapping.WrappingAdd` | src/tcp.rs:108 | the result is the one u32 congruent to the sum modulo 2^32, and equals the sum when that fits |
| `Wrapping.Offset` | src/tcp.rs:25-35 | the distance from `a` to `b` in sequence space, as the inverse of `WrappingAdd`: stepping it ahead of `a` lands on `b` |
| `Wrapping.OffsetOfWrappingAdd` | src/tcp.rs:25-35 | stepping `d` ahead of `a` gives a number exactly `d` ahead of `a` |
| `Wrapping.CheckedAdd` | src/tcp.rs:108 | a debug build's `+` fails exactly when the sum exceeds 2^32 - 1, and otherwise returns the sum |
| `Wrapping.WindowNumbers` | src/tcp.rs:25-35 | lists `len` numbers, the k-th being exactly k ahead of the window start |
| `Wrapping.InWindowListed` | src/tcp.rs:25-35 | a number lies in the modular window `[start, start + len)` exactly when the list has it, and the list has no repeats |
| `Tcp.InitialSendSpace` | src/tcp.rs:94-105 | ISS is 0 and SND.UNA = ISS; SND.NXT is one past SND.UNA; SND.WND is 10; SND.UP is clear; SND.WL1 = SND.WL2 = 0; SND.UNA <= SND.NXT <= SND.UNA + SND.WND modulo 2^32 |
| `Tcp.InitialRecvSpace` | src/tcp.rs:106-111 | IRS is the peer's sequence number; RCV.NXT is one past it modulo 2^32; RCV.WND is the peer's window; RCV.UP is clear |
| `Tcp.NewTcpHeader` | src/tcp.rs:115-120 | a new header carries the given ports, sequence number and window, with none of the nine control bits set, acknowledgment number 0, urgent pointer 0 and a data offset of five words (no options) |
| `Tcp.SynAck` | src/tcp.rs:115-131 | the reply swaps the inbound ports and addresses; it has seq = ISS, ack = RCV.NXT, SYN and ACK set and none of the other seven control bits (FIN, RST, PSH, URG, ECE, CWR, NS), and window = SND.WND; the IP header has TTL 64, protocol TCP, and a payload length equal to the TCP header length, so no data |
| `Tcp.Accept` | src/tcp.rs:83-153 | a connection and reply are produced exactly when SYN is set; the connection is in SynRcvd with the initial send and receive spaces, and the reply is its SYN+ACK |
| `Tcp.OnPacket` | src/tcp.rs:155-163 | the connection is left unchanged and nothing is sent |
| `TcpProperties.AcceptLooksOnlyAtSyn` | src/tcp.rs:91-93 | segments that differ only in ACK, FIN, RST, PSH, URG, ECE, CWR, NS or the acknowledgment number are accepted alike |
| `TcpProperties.SynRstIsAccepted` | src/tcp.rs:91-96 | a segment with both SYN and RST still opens a connection in SynRcvd |
| `TcpProperties.SendableListed` | src/tcp.rs:25-35 | region 3 of the send diagram is exactly the SND.UNA + SND.WND - SND.NXT numbers that follow SND.NXT |
| `TcpProperties.ReceivableListed` | src/tcp.rs:60-70 | region 2 of the receive diagram is exactly the RCV.WND numbers that follow RCV.NXT |
| `TcpProperties.FreshSendSpaceRegions` | src/tcp.rs:94-105 | in the fresh send space only ISS (the SYN) is sent and unacknowledged, and exactly ISS+1 to ISS+9 may still be sent |
| `TcpProperties.AcceptConsumesSyn` | src/tcp.rs:106-121 | after accepting, the SYN's own number is outside the receive window; the SYN+ACK's ack number is one past the SYN, also across the 2^32 wrap; that ack number is receivable when the peer's window is non-zero |
| `TcpProperties.ReplyWindowIgnoresPeer` | src/tcp.rs:101-119 | the SYN+ACK is the same whatever window the peer advertised, and it advertises the fixed window 10 |
| `TcpProperties.ReplyReturnsToSender` | src/tcp.rs:115-131 | swapping the reply's endpoints gives back the inbound segment's addresses and ports |
| `TcpDebugBuild.AcceptAsWritten` | src/tcp.rs:94-112 | with overflow checks, acceptance panics exactly on a SYN numbered 2^32 - 1 and otherwise returns what `Accept` returns |
| `TcpDebugBuild.SynAtMaxSequencePanics` | src/tcp.rs:108 | a SYN numbered 2^32 - 1 panics as written, while the wrapping version accepts it and acknowledges it with 0 |

## Left out

- src/main.rs is not part of this model. It opens the `tun0` device, runs the blocking receive loop and checks the 4-byte packet-info protocol field. It never calls into `Connection`.
- Header encoding is left out: `TcpHeader::new`, `header_len()` and `Ipv4Header::new` appear only through the field values they produce. The checksum (`calc_checksum_ipv4`) and the writes into the 1500-byte buffer are omitted, so the `Ipv4Header::new(...).unwrap()` and checksum `expect` failure paths are not modelled.
- Sending (`nic.send`) and the `io::Result` errors of writing and sending are I/O. `Accept` returns the reply instead of sending it.
- The debug printing (`print_iph`, `print_tcph`, `eprintln!`) is omitted.
- The unused `data` parameter of `accept` and `on_packet` is omitted.
- Inbound headers keep the IPv4 source and destination, and the TCP ports, sequence and acknowledgment numbers, window and all nine control bits (acceptance reads only SYN, the ports, the sequence number and the window; the rest is kept to state that it is ignored). Outbound headers keep the ports, sequence and acknowledgment numbers, data offset, window, urgent pointer and nine control bits, and the IPv4 payload length, TTL, protocol, source and destination. Dropped from both: the TCP checksum and options, the IPv4 header checksum, identification, fragmentation fields, type of service and options, and the inbound header lengths.
- There is no connection table, no acceptability test, no window update rule, no teardown, no retransmission and no randomised ISS. The source has no code for any of them.

## Findings

| source | as written | input that shows it | evidently intended | confidence | as-written member | corrected member |
|---|---|---|---|---|---|---|
| src/tcp.rs:108 | `tcp_hdr.sequence_number() + 1` uses Rust's `+` on `u32`, which panics on overflow in a debug build | a SYN whose sequence number is 0xFFFFFFFF (any peer may choose it) | RCV.NXT = IRS + 1 modulo 2^32 (`wrapping_add`), so RCV.NXT = 0 | not executed; a release build already wraps | `TcpDebugBuild.SynAtMaxSequencePanics` | `TcpProperties.AcceptConsumesSyn` |
