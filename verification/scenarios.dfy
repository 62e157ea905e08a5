/** Concrete runs of `send`, each stepped through the phases of the sender. */
module Scenarios {
  import opened Protocol
  import opened Trace
  import opened Sender
  import Frame
  import Handshake
  import Chunking

  /** A file shorter than 127 bytes goes out as one frame numbered 1 (all SUB when
      the file is empty), acknowledged at once, then one acknowledged EOT; the report
      counts the file bytes, 4 framing bytes plus the data, and one block. */
  lemma OneBlock(file: seq<byte>, link: seq<Reply>)
    requires |file| < Chunking.LAST_LIMIT
    requires link == [Byte(NAK), Byte(ACK), Byte(ACK)]
    ensures Send(file, link) ==
              Transfer([Recv(Handshake, Byte(NAK)), ReadFile(file), SendFrame(1, file),
                        Recv(Response, Byte(ACK)), SendEot, Recv(EotReply, Byte(ACK))],
                       Completed(Report(|file|, |file| + 4, 1)))
  {
    assert Handshake.WaitFor(NAK, link) == Handshake.Matched(1);
    var t0 := [Recv(Handshake, Byte(NAK))];
    assert Begin(file, link) == Session(ReadNext, file, [], 0, 0, 0, link[1..], t0);
    FirstFrame(file, link[1..], t0);
    AckTail(Session(AwaitReply, [], file, 1, |file|, |file| + 4, link[1..],
                    t0 + [ReadFile(file), SendFrame(1, file)]));
  }

  /** After the handshake, the sender reads the first chunk and writes it as block 1;
      `filesize` and `bytes_sent` now count it once. */
  lemma FirstFrame(file: seq<byte>, rest: seq<Reply>, t0: seq<Event>)
    requires |file| <= BLOCK_SIZE
    ensures Run(Session(ReadNext, file, [], 0, 0, 0, rest, t0)) ==
            Run(Session(AwaitReply, [], file, 1, |file|, |file| + 4, rest,
                        t0 + [ReadFile(file), SendFrame(1, file)]))
  {
    var s0 := Session(ReadNext, file, [], 0, 0, 0, rest, t0);
    assert Chunking.NextChunk(file) == file;
    var t1 := t0 + [ReadFile(file)];
    var s1 := Session(Transmit, [], file, 1, |file|, 0, rest, t1);
    assert Step(s0) == s1;
    var t2 := t1 + [SendFrame(1, file)];
    assert t2 == t0 + [ReadFile(file), SendFrame(1, file)];
    var s2 := Session(AwaitReply, [], file, 1, |file|, |file| + 4, rest, t2);
    assert Step(s1) == s2;
    assert Run(s0) == Run(s1) == Run(s2);
  }

  /** A NAK in the response loop: the sender writes the frame in its buffer again
      and counts its bytes again, without reading the file. */
  lemma NakResend(s: Session)
    requires s.phase == AwaitReply && |s.chunk| <= BLOCK_SIZE
    requires s.link != [] && s.link[0] == Byte(NAK)
    ensures Run(s) ==
            Run(s.(link := s.link[1..], bytesSent := AddU16(s.bytesSent, 3 + |s.chunk| + 1),
                   trace := s.trace + [Recv(Response, Byte(NAK)), SendFrame(s.block, s.chunk)]))
  {
    var t1 := s.trace + [Recv(Response, Byte(NAK))];
    var s1 := s.(phase := Transmit, link := s.link[1..], trace := t1);
    assert Step(s) == s1;
    var t2 := t1 + [SendFrame(s.block, s.chunk)];
    assert t2 == s.trace + [Recv(Response, Byte(NAK)), SendFrame(s.block, s.chunk)];
    var s2 := s1.(phase := AwaitReply, bytesSent := AddU16(s.bytesSent, 3 + |s.chunk| + 1), trace := t2);
    assert Step(s1) == s2;
    assert Run(s) == Run(s1) == Run(s2);
  }

  /** From the response loop with a short chunk, ACK then ACK: the sender leaves the
      loop, writes one EOT, reads its ACK and reports its counters. */
  lemma AckTail(s: Session)
    requires s.phase == AwaitReply && |s.chunk| < Chunking.LAST_LIMIT
    requires s.link == [Byte(ACK), Byte(ACK)]
    ensures Run(s) == s.(phase := Halted(Completed(Summary(s))), link := [],
                         trace := s.trace + [Recv(Response, Byte(ACK)), SendEot, Recv(EotReply, Byte(ACK))])
  {
    var t1 := s.trace + [Recv(Response, Byte(ACK))];
    var s1 := s.(phase := EndTransmission, link := [Byte(ACK)], trace := t1);
    assert Step(s) == s1;
    var t2 := t1 + [SendEot, Recv(EotReply, Byte(ACK))];
    assert t2 == s.trace + [Recv(Response, Byte(ACK)), SendEot, Recv(EotReply, Byte(ACK))];
    var s2 := s1.(phase := Halted(Completed(Summary(s))), link := [], trace := t2);
    assert Step(s1) == s2;
    assert Run(s) == Run(s1) == Run(s2) == s2;
  }

  /** Appending two events appends their bytes. */
  lemma ExtendWireTwice(t: seq<Event>, a: Event, b: Event)
    requires WellFormed(t) && Fits(a) && Fits(b)
    ensures WellFormed(t + [a, b])
    ensures Wire(t + [a, b]) == Wire(t) + Emitted(a) + Emitted(b)
  {
    var u := t + [a];
    assert u + [b] == t + [a, b];
    ExtendWire(t, a);
    ExtendWire(u, b);
  }

  /** The bytes written by a one-block transfer acknowledged at the first try: its
      frame, then one EOT. */
  lemma OneBlockWire(n: byte, c: seq<byte>)
    requires |c| <= BLOCK_SIZE
    ensures var t := [Recv(Handshake, Byte(NAK)), ReadFile(c), SendFrame(n, c),
                      Recv(Response, Byte(ACK)), SendEot, Recv(EotReply, Byte(ACK))];
      WellFormed(t) && Wire(t) == Frame.Encode(n, c) + [EOT]
  {
    var e0, e1, e2 := Recv(Handshake, Byte(NAK)), ReadFile(c), SendFrame(n, c);
    var e3, e4, e5 := Recv(Response, Byte(ACK)), SendEot, Recv(EotReply, Byte(ACK));
    var u4 := [e0, e1, e2, e3];
    assert WellFormed(u4) && Wire(u4) == Frame.Encode(n, c) by {
      AckedFrameWire(n, c);
    }
    assert Emitted(e4) == [EOT] && Emitted(e5) == [];
    assert u4 + [e4, e5] == [e0, e1, e2, e3, e4, e5];
    ExtendWireTwice(u4, e4, e5);
  }

  /** The handshake NAK, the file read, the frame and its ACK put just the frame on
      the wire. */
  lemma AckedFrameWire(n: byte, c: seq<byte>)
    requires |c| <= BLOCK_SIZE
    ensures var u := [Recv(Handshake, Byte(NAK)), ReadFile(c), SendFrame(n, c), Recv(Response, Byte(ACK))];
      WellFormed(u) && Wire(u) == Frame.Encode(n, c)
  {
    var e0, e1, e2 := Recv(Handshake, Byte(NAK)), ReadFile(c), SendFrame(n, c);
    var e3 := Recv(Response, Byte(ACK));
    var u2 := [e0, e1];
    assert [] + [e0, e1] == u2 && u2 + [e2, e3] == [e0, e1, e2, e3];
    assert Wire(u2) == [] && WellFormed(u2) by {
      ExtendWireTwice([], e0, e1);
    }
    assert Emitted(e2) == Frame.Encode(n, c) && Emitted(e3) == [];
    ExtendWireTwice(u2, e2, e3);
  }

  /** The frame of an empty chunk in block 1: header 01 01 FE, 128 SUB bytes, and
      checksum 128 * 0x1A mod 256 = 0. */
  lemma EmptyFrame()
    ensures Frame.Encode(1, [])[..3] == [SOH, 1, 0xFE]
    ensures Frame.Encode(1, [])[3..FRAME_SIZE - 1] == seq(BLOCK_SIZE, _ => SUB)
    ensures Frame.Encode(1, [])[FRAME_SIZE - 1] == 0
  {
    var f := Frame.Encode(1, []);
    assert f[3..FRAME_SIZE - 1] == seq(BLOCK_SIZE, _ => SUB);
    ConstantSum(BLOCK_SIZE, SUB);
  }

  lemma {:induction false} ConstantSum(n: nat, b: byte)
    ensures Frame.Sum(seq(n, _ => b)) == n * b
  {
    if n > 0 {
      ConstantSum(n - 1, b);
      assert seq(n, _ => b)[..n - 1] == seq(n - 1, _ => b);
    }
  }

  /** A NAK makes the sender write the same frame again without reading the file;
      `bytes_sent` counts both transmissions. */
  lemma Retransmission(file: seq<byte>, link: seq<Reply>)
    requires |file| < Chunking.LAST_LIMIT
    requires link == [Byte(NAK), Byte(NAK), Byte(ACK), Byte(ACK)]
    ensures Send(file, link) ==
              Transfer([Recv(Handshake, Byte(NAK)), ReadFile(file), SendFrame(1, file),
                        Recv(Response, Byte(NAK)), SendFrame(1, file),
                        Recv(Response, Byte(ACK)), SendEot, Recv(EotReply, Byte(ACK))],
                       Completed(Report(|file|, 2 * (|file| + 4), 1)))
  {
    assert Handshake.WaitFor(NAK, link) == Handshake.Matched(1);
    var n := |file| + 4;
    var e0, e1, e2 := Recv(Handshake, Byte(NAK)), ReadFile(file), SendFrame(1, file);
    var e3, e5 := Recv(Response, Byte(NAK)), Recv(Response, Byte(ACK));
    var e6, e7 := SendEot, Recv(EotReply, Byte(ACK));
    var acks := [Byte(ACK), Byte(ACK)];
    var rest := [Byte(NAK)] + acks;
    assert link[1..] == rest;
    var t0 := [e0];
    assert Begin(file, link) == Session(ReadNext, file, [], 0, 0, 0, rest, t0);
    FirstFrame(file, rest, t0);
    var t2 := t0 + [e1, e2];
    var s2 := Session(AwaitReply, [], file, 1, |file|, n, rest, t2);
    NakResend(s2);
    assert rest[1..] == acks;
    var t4 := t2 + [e3, e2];
    var s4 := Session(AwaitReply, [], file, 1, |file|, 2 * n, acks, t4);
    NoWrap(n, 3 + |file| + 1);
    assert Run(s2) == Run(s4);
    AckTail(s4);
    var t7 := t4 + [e5, e6, e7];
    assert t2 == [e0, e1, e2];
    assert t4 == [e0, e1, e2, e3, e2];
    assert t7 == [e0, e1, e2, e3, e2, e5, e6, e7];
  }

  /** A `uint16_t` sum below 2^16 does not wrap. */
  lemma NoWrap(x: u16, d: nat)
    requires x + d < U16_MODULUS
    ensures AddU16(x, d) == x + d
  {
  }

  /** A link that carries only the NAK: the sender still reads the first chunk and
      writes its frame, then finds no reply to read. */
  lemma StarvedAfterFrame(file: seq<byte>, link: seq<Reply>)
    requires |file| <= BLOCK_SIZE
    requires link == [Byte(NAK)]
    ensures Send(file, link) ==
              Transfer([Recv(Handshake, Byte(NAK)), ReadFile(file), SendFrame(1, file)], Starved)
  {
    assert Handshake.WaitFor(NAK, link) == Handshake.Matched(1);
    var t0 := [Recv(Handshake, Byte(NAK))];
    assert Begin(file, link) == Session(ReadNext, file, [], 0, 0, 0, [], t0);
    FirstFrame(file, [], t0);
    var t2 := t0 + [ReadFile(file), SendFrame(1, file)];
    var s2 := Session(AwaitReply, [], file, 1, |file|, |file| + 4, [], t2);
    assert Step(s2) == s2.(phase := Halted(Starved));
    assert Run(s2) == s2.(phase := Halted(Starved));
  }

  /** CAN in the response loop ends the transfer at once: no EOT is written, and the
      report covers the one frame sent. */
  lemma Cancellation(file: seq<byte>, link: seq<Reply>)
    requires |file| <= BLOCK_SIZE
    requires link == [Byte(NAK), Byte(CAN)]
    ensures Send(file, link) ==
              Transfer([Recv(Handshake, Byte(NAK)), ReadFile(file),
                        SendFrame(1, file), Recv(Response, Byte(CAN))],
                       Cancelled(Report(|file|, |file| + 4, 1)))
  {
    assert Handshake.WaitFor(NAK, link) == Handshake.Matched(1);
    var t0 := [Recv(Handshake, Byte(NAK))];
    assert Begin(file, link) == Session(ReadNext, file, [], 0, 0, 0, link[1..], t0);
    FirstFrame(file, link[1..], t0);
    var t2 := t0 + [ReadFile(file), SendFrame(1, file)];
    var s2 := Session(AwaitReply, [], file, 1, |file|, |file| + 4, link[1..], t2);
    var t3 := t2 + [Recv(Response, Byte(CAN))];
    var s3 := Session(Halted(Cancelled(Report(|file|, |file| + 4, 1))), [], file, 1, |file|,
                      |file| + 4, [], t3);
    assert Step(s2) == s3;
    assert Run(s2) == Run(s3) == s3;
  }

  /** Noise before the receiver's NAK is skipped by the handshake, and an unknown
      response byte is ignored while waiting for the ACK. */
  lemma NoiseIgnored(file: seq<byte>, link: seq<Reply>)
    requires |file| < Chunking.LAST_LIMIT
    requires link == [Byte(0x43), Byte(NAK), Byte(0x43), Byte(ACK), Byte(ACK)]
    ensures Send(file, link).outcome == Completed(Report(|file|, |file| + 4, 1))
  {
    assert Handshake.WaitFor(NAK, link) == Handshake.Matched(2);
    var t0 := [Recv(Handshake, Byte(0x43)), Recv(Handshake, Byte(NAK))];
    assert Begin(file, link) == Session(ReadNext, file, [], 0, 0, 0, link[2..], t0);
    FirstFrame(file, link[2..], t0);
    var t2 := t0 + [ReadFile(file), SendFrame(1, file)];
    var s2 := Session(AwaitReply, [], file, 1, |file|, |file| + 4, link[2..], t2);
    var t3 := t2 + [Recv(Response, Byte(0x43))];
    var s3 := Session(AwaitReply, [], file, 1, |file|, |file| + 4, link[3..], t3);
    assert Step(s2) == s3;
    AckTail(s3);
    assert Run(s2) == Run(s3);
  }

  /** A file of exactly one block is followed by an all-SUB block: its first chunk is
      127 bytes or more, so the loop reads once more and gets nothing. */
  lemma TrailingPadBlock(file: seq<byte>)
    requires |file| == BLOCK_SIZE
    ensures Chunking.Chunks(file) == [file, []]
  {
    var c := Chunking.NextChunk(file);
    assert c == file;
    assert file[|c|..] == [];
  }

  /** A 300-byte file goes out as blocks of 128, 128 and 44 bytes. */
  lemma ThreeBlocks(file: seq<byte>)
    requires |file| == 300
    ensures |Chunking.Chunks(file)| == 3
    ensures Chunking.Chunks(file) == [file[..128], file[128..256], file[256..]]
  {
    var rest := file[128..];
    var rest2 := rest[128..];
    assert rest2 == file[256..];
    assert Chunking.NextChunk(rest2) == rest2;
    assert Chunking.Chunks(rest2) == [rest2];
    assert Chunking.NextChunk(rest) == file[128..256];
    assert Chunking.Chunks(rest) == [file[128..256]] + Chunking.Chunks(rest2);
  }
}
