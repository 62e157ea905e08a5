/** The sender of `send` as a state machine over a session record. Its phases are
    the places control reaches in the C function: the top of the transmit loop
    (read the next chunk), the `current_block:` label (write the frame), the response
    loop, and the EOT loop; `Halted` records how the function returned. */
module Sender {
  import opened Protocol
  import opened Trace
  import Frame
  import Handshake
  import Chunking

  /** What `end_transmission` prints: `filesize`, `bytes_sent` and `block`. */
  datatype Report = Report(filesize: u16, bytesSent: u16, blocks: byte)

  datatype Outcome =
    | Completed(report: Report)   // an EOT was acknowledged
    | Cancelled(report: Report)   // CAN read in the response loop
    | HandshakeFailed             // `wait_for` did not see the initial NAK
    | LinkFault                   // `read_char` failed in the response or EOT loop
    | Starved                     // the link had no more replies to give

  datatype Phase = ReadNext | Transmit | AwaitReply | EndTransmission | Halted(outcome: Outcome)

  /** The sender's variables: the unread rest of the file, `buffer[..size]`, the
      counters, the replies still to come from the link and the I/O history. */
  datatype Session = Session(
    phase: Phase,
    rest: seq<byte>,
    chunk: seq<byte>,
    block: byte,
    filesize: u16,
    bytesSent: u16,
    link: seq<Reply>,
    trace: seq<Event>)

  function Summary(s: Session): Report
  {
    Report(s.filesize, s.bytesSent, s.block)
  }

  /** Within one link position, the phases are visited in this decreasing order. */
  function Rank(p: Phase): nat
  {
    match p
    case ReadNext => 3
    case Transmit => 2
    case AwaitReply => 1
    case EndTransmission => 1
    case Halted(_) => 0
  }

  /** One step of `send`. Every step either reads a reply from the link or moves on
      to a lower-ranked phase without reading. */
  function Step(s: Session): (r: Session)
    requires !s.phase.Halted? && |s.chunk| <= BLOCK_SIZE
    ensures |r.chunk| <= BLOCK_SIZE
    ensures |r.link| < |s.link| || (|r.link| == |s.link| && Rank(r.phase) < Rank(s.phase))
  {
    match s.phase
    case ReadNext =>
      var c := Chunking.NextChunk(s.rest);
      s.(phase := Transmit, rest := s.rest[|c|..], chunk := c,
         block := Succ(s.block), filesize := AddU16(s.filesize, |c|),
         trace := s.trace + [ReadFile(c)])
    case Transmit =>
      s.(phase := AwaitReply, bytesSent := AddU16(s.bytesSent, 3 + |s.chunk| + 1),
         trace := s.trace + [SendFrame(s.block, s.chunk)])
    case AwaitReply =>
      if s.link == [] then s.(phase := Halted(Starved))
      else
        var r := s.link[0];
        var s' := s.(link := s.link[1..], trace := s.trace + [Recv(Response, r)]);
        if r.Fault? then s'.(phase := Halted(LinkFault))
        else if r.value == ACK then
          s'.(phase := if Chunking.IsLast(s.chunk) then EndTransmission else ReadNext)
        else if r.value == NAK then s'.(phase := Transmit)
        else if r.value == CAN then s'.(phase := Halted(Cancelled(Summary(s))))
        else s'
    case EndTransmission =>
      var sent := s.trace + [SendEot];
      if s.link == [] then s.(phase := Halted(Starved), trace := sent)
      else
        var r := s.link[0];
        var s' := s.(link := s.link[1..], trace := sent + [Recv(EotReply, r)]);
        if r.Fault? then s'.(phase := Halted(LinkFault))
        else if r.value == ACK then s'.(phase := Halted(Completed(Summary(s))))
        else s'
  }

  /** Step until `send` returns. A session that has already returned is left as it
      is, and only the handshake can end in `HandshakeFailed`. */
  function Run(s: Session): (r: Session)
    requires |s.chunk| <= BLOCK_SIZE
    ensures r.phase.Halted?
    ensures s.phase.Halted? ==> r == s
    ensures r.phase == Halted(HandshakeFailed) ==> s.phase == Halted(HandshakeFailed)
    decreases |s.link|, Rank(s.phase)
  {
    if s.phase.Halted? then s else Run(Step(s))
  }

  /** The session after `wait_for(uart, NAK)`: the transfer starts when the NAK was
      seen, and `send` returns otherwise. */
  function Begin(file: seq<byte>, link: seq<Reply>): (s: Session)
    ensures var w := Handshake.WaitFor(NAK, link);
      var n := Handshake.Used(w, link);
      && (s.phase == ReadNext <==> w.Matched?)
      && (s.phase == Halted(HandshakeFailed) <==> w.TimedOut?)
      && (s.phase == Halted(Starved) <==> w.Starved?)
      && s.rest == file && s.chunk == []
      && s.block == 0 && s.filesize == 0 && s.bytesSent == 0
      && link[..n] + s.link == link
      && s.trace == Heard(link[..n])
  {
    var w := Handshake.WaitFor(NAK, link);
    var n := Handshake.Used(w, link);
    var phase := match w
      case Matched(_) => ReadNext
      case TimedOut => Halted(HandshakeFailed)
      case Starved => Halted(Starved);
    Session(phase, file, [], 0, 0, 0, link[n..], Heard(link[..n]))
  }

  /** What one call of `send` does with this file and these link replies: its I/O
      history and how it returned. */
  datatype Transfer = Transfer(trace: seq<Event>, outcome: Outcome)

  /** One call of `send`. It reports a handshake failure exactly when `wait_for`
      spent its 16 attempts, and when the NAK is not seen it returns at once with
      only the handshake replies in its history. */
  function Send(file: seq<byte>, link: seq<Reply>): (T: Transfer)
    ensures var w := Handshake.WaitFor(NAK, link);
      && (T.outcome == HandshakeFailed <==> w.TimedOut?)
      && (!w.Matched? ==>
            T == Transfer(Heard(link[..Handshake.Used(w, link)]),
                          if w.TimedOut? then HandshakeFailed else Starved))
  {
    var s := Run(Begin(file, link));
    Transfer(s.trace, s.phase.outcome)
  }
}
