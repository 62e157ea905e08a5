/** What every run of the sender guarantees. The session invariant `Inv` ties the
    machine's variables to its history and to the chunking of the file; each step
    preserves it, so every run of `send` ends in a state that satisfies it. */
module SenderProofs {
  import opened Protocol
  import opened Trace
  import opened Sender
  import opened Chunking
  import Handshake

  /** The chunks still to be read once the chunk in the buffer is acknowledged. */
  ghost function Pending(s: Session): seq<seq<byte>>
  {
    if IsLast(s.chunk) then [] else Chunks(s.rest)
  }

  /** The counters agree with the history, each wrapped to its C width. */
  ghost predicate Counted(s: Session)
  {
    && s.filesize == SumLen(Reads(s.trace)) % U16_MODULUS
    && s.block == |Reads(s.trace)| % 256
    && s.bytesSent == FrameCost(s.trace) % U16_MODULUS
  }

  /** The buffer holds the last chunk read, and the chunks read so far followed by
      those still pending are exactly the file's chunks. */
  ghost predicate Holding(file: seq<byte>, s: Session)
  {
    && |Reads(s.trace)| > 0
    && Last(Reads(s.trace)) == s.chunk
    && Reads(s.trace) + Pending(s) == Chunks(file)
  }

  /** The last event of the history is one the phase may follow. */
  ghost predicate Leads(s: Session)
    requires |s.trace| > 0
  {
    match s.phase
    case ReadNext => MayFollow(Last(s.trace), ReadFile([]))
    case Transmit => MayFollow(Last(s.trace), SendFrame(0, []))
    case AwaitReply => MayFollow(Last(s.trace), Recv(Response, Fault))
    case EndTransmission => MayFollow(Last(s.trace), SendEot)
    case Halted(_) => true
  }

  /** How the history ends for each way `send` can return from the machine. */
  ghost predicate Closes(file: seq<byte>, s: Session)
    requires s.phase.Halted? && |s.trace| > 0
  {
    match s.phase.outcome
    case Completed(rep) =>
      rep == Summary(s) && Last(s.trace) == Recv(EotReply, Byte(ACK)) && Reads(s.trace) == Chunks(file)
    case Cancelled(rep) =>
      rep == Summary(s) && Last(s.trace) == Recv(Response, Byte(CAN)) && NoEot(s.trace)
    case LinkFault =>
      Last(s.trace).Recv? && Last(s.trace).stage != Handshake && Last(s.trace).reply == Fault
    case Starved => s.link == [] && AwaitsReply(Last(s.trace))
    case HandshakeFailed => false
  }

  /** The replies read so far, followed by those still to come, are the link. */
  ghost predicate Linked(link: seq<Reply>, s: Session)
  {
    Replies(s.trace) + s.link == link
  }

  /** What the phase says about the file reads and the end of the history. */
  ghost predicate Staged(file: seq<byte>, s: Session)
    requires |s.trace| > 0
  {
    var t := s.trace;
    match s.phase
    case ReadNext =>
      && NoEot(t)
      && Reads(t) + Chunks(s.rest) == Chunks(file)
      && (Last(t) == Recv(Response, Byte(ACK)) ==> |Reads(t)| > 0 && !IsLast(Last(Reads(t))))
    case Transmit => NoEot(t) && Holding(file, s)
    case AwaitReply => NoEot(t) && Holding(file, s)
    case EndTransmission =>
      && Reads(t) == Chunks(file)
      && (Last(t) == Recv(Response, Byte(ACK)) ==> |Reads(t)| > 0 && IsLast(Last(Reads(t))))
    case Halted(_) => Closes(file, s)
  }

  ghost predicate Inv(file: seq<byte>, link: seq<Reply>, s: Session)
  {
    && |s.chunk| <= BLOCK_SIZE
    && |s.trace| > 0
    && Linked(link, s)
    && Counted(s)
    && Conforms(s.trace)
    && Reads(s.trace) <= Chunks(file)
    && Leads(s)
    && Staged(file, s)
  }

  /** Each step consumes replies from the link exactly as it records them. */
  lemma StepLinked(link: seq<Reply>, s: Session)
    requires Linked(link, s) && !s.phase.Halted? && |s.chunk| <= BLOCK_SIZE
    ensures Linked(link, Step(s))
  {
    var r := Step(s);
    match s.phase
    case ReadNext =>
      var e := ReadFile(NextChunk(s.rest));
      ExtendSummaries(s.trace, e);
      assert r.trace == s.trace + [e];
      assert Replies(r.trace) == Replies(s.trace);
      assert r.link == s.link;
    case Transmit =>
      var e := SendFrame(s.block, s.chunk);
      ExtendSummaries(s.trace, e);
      assert r.trace == s.trace + [e];
      assert Replies(r.trace) == Replies(s.trace);
      assert r.link == s.link;
    case AwaitReply =>
      if s.link != [] {
        var x := s.link[0];
        var e := Recv(Response, x);
        ExtendSummaries(s.trace, e);
        assert r.trace == s.trace + [e];
        ReplyConsumed(link, s.trace, s.link, r.trace);
      }
    case EndTransmission =>
      var t1 := s.trace + [SendEot];
      ExtendSummaries(s.trace, SendEot);
      assert Replies(t1) == Replies(s.trace);
      if s.link == [] {
        assert r.trace == t1;
        assert r.link == s.link;
      } else {
        var e := Recv(EotReply, s.link[0]);
        ExtendSummaries(t1, e);
        assert r.trace == t1 + [e];
        ReplyConsumed(link, s.trace, s.link, r.trace);
      }
  }

  lemma ReplyConsumed(link: seq<Reply>, t: seq<Event>, rest: seq<Reply>, t': seq<Event>)
    requires Replies(t) + rest == link && rest != []
    requires Replies(t') == Replies(t) + [rest[0]]
    ensures Replies(t') + rest[1..] == link
  {
    assert [rest[0]] + rest[1..] == rest;
    assert Replies(t') + rest[1..] == Replies(t) + ([rest[0]] + rest[1..]);
  }

  /** Reading a chunk adds its size to `filesize` and advances the block number. */
  lemma CountedReadNext(s: Session)
    requires Counted(s) && s.phase == ReadNext && |s.chunk| <= BLOCK_SIZE
    ensures Counted(Step(s))
  {
    var r := Step(s);
    var rs := Reads(s.trace);
    var c := NextChunk(s.rest);
    ExtendSummaries(s.trace, ReadFile(c));
    assert r.trace == s.trace + [ReadFile(c)];
    assert Reads(r.trace) == rs + [c];
    assert FrameCost(r.trace) == FrameCost(s.trace);
    assert (rs + [c])[..|rs|] == rs;
    assert SumLen(rs + [c]) == SumLen(rs) + |c|;
    ModAddLeft(SumLen(rs), |c|, U16_MODULUS);
    ModAddLeft(|rs|, 1, 256);
  }

  /** A transmission adds 3 + size + 1 to `bytes_sent`. */
  lemma CountedTransmit(s: Session)
    requires Counted(s) && s.phase == Transmit && |s.chunk| <= BLOCK_SIZE
    ensures Counted(Step(s))
  {
    var r := Step(s);
    var e := SendFrame(s.block, s.chunk);
    ExtendSummaries(s.trace, e);
    assert r.trace == s.trace + [e];
    assert Reads(r.trace) == Reads(s.trace);
    assert FrameCost(r.trace) == FrameCost(s.trace) + (3 + |s.chunk| + 1);
    ModAddLeft(FrameCost(s.trace), 3 + |s.chunk| + 1, U16_MODULUS);
  }

  /** Reading a reply changes no counter. */
  lemma CountedAwaitReply(s: Session)
    requires Counted(s) && s.phase == AwaitReply && |s.chunk| <= BLOCK_SIZE
    ensures Counted(Step(s))
  {
    var r := Step(s);
    if s.link != [] {
      var e := Recv(Response, s.link[0]);
      ExtendSummaries(s.trace, e);
      assert r.trace == s.trace + [e];
    }
    assert Reads(r.trace) == Reads(s.trace);
    assert FrameCost(r.trace) == FrameCost(s.trace);
  }

  /** Writing EOT and reading its reply change no counter. */
  lemma CountedEndTransmission(s: Session)
    requires Counted(s) && s.phase == EndTransmission && |s.chunk| <= BLOCK_SIZE
    ensures Counted(Step(s))
  {
    var r := Step(s);
    var t1 := s.trace + [SendEot];
    ExtendSummaries(s.trace, SendEot);
    if s.link == [] {
      assert r.trace == t1;
    } else {
      var e := Recv(EotReply, s.link[0]);
      ExtendSummaries(t1, e);
      assert r.trace == t1 + [e];
    }
    assert Reads(r.trace) == Reads(s.trace);
    assert FrameCost(r.trace) == FrameCost(s.trace);
  }

  /** Reading a chunk is allowed where the phase says so, and after an ACK only when
      the acknowledged chunk was not the last. */
  lemma ConformsReadNext(s: Session)
    requires s.phase == ReadNext && |s.chunk| <= BLOCK_SIZE && |s.trace| > 0
    requires Conforms(s.trace) && Leads(s)
    requires Last(s.trace) == Recv(Response, Byte(ACK)) ==>
               |Reads(s.trace)| > 0 && !IsLast(Last(Reads(s.trace)))
    ensures Conforms(Step(s).trace)
  {
    var e := ReadFile(NextChunk(s.rest));
    assert Step(s).trace == s.trace + [e];
    ExtendConforms(s.trace, e);
  }

  /** A frame carries the chunk in the buffer and its block number. */
  lemma ConformsTransmit(file: seq<byte>, s: Session)
    requires s.phase == Transmit && |s.chunk| <= BLOCK_SIZE && |s.trace| > 0
    requires Conforms(s.trace) && Leads(s) && Holding(file, s) && Counted(s)
    ensures Conforms(Step(s).trace)
  {
    var e := SendFrame(s.block, s.chunk);
    assert Step(s).trace == s.trace + [e];
    ExtendConforms(s.trace, e);
  }

  /** Any reply may be read in the response loop. */
  lemma ConformsAwaitReply(s: Session)
    requires s.phase == AwaitReply && |s.chunk| <= BLOCK_SIZE && |s.trace| > 0
    requires Conforms(s.trace) && Leads(s)
    ensures Conforms(Step(s).trace)
  {
    if s.link != [] {
      var e := Recv(Response, s.link[0]);
      assert Step(s).trace == s.trace + [e];
      ExtendConforms(s.trace, e);
    }
  }

  /** EOT is written after the ACK of the last chunk or after a non-ACK reply to an
      EOT, and is followed by the read of its reply. */
  lemma ConformsEndTransmission(s: Session)
    requires s.phase == EndTransmission && |s.chunk| <= BLOCK_SIZE && |s.trace| > 0
    requires Conforms(s.trace) && Leads(s)
    requires Last(s.trace) == Recv(Response, Byte(ACK)) ==>
               |Reads(s.trace)| > 0 && IsLast(Last(Reads(s.trace)))
    ensures Conforms(Step(s).trace)
  {
    var t1 := s.trace + [SendEot];
    ExtendConforms(s.trace, SendEot);
    if s.link != [] {
      var e := Recv(EotReply, s.link[0]);
      assert Step(s).trace == t1 + [e];
      ExtendSummaries(s.trace, SendEot);
      ExtendConforms(t1, e);
    }
  }

  /** Each step keeps the phase's account of the file reads and of how the history
      ends. */
  ghost predicate Kept(file: seq<byte>, r: Session)
  {
    |r.trace| > 0 && Reads(r.trace) <= Chunks(file) && Leads(r) && Staged(file, r)
  }

  lemma StagedReadNext(file: seq<byte>, s: Session)
    requires s.phase == ReadNext && |s.chunk| <= BLOCK_SIZE && |s.trace| > 0
    requires Staged(file, s)
    ensures Kept(file, Step(s))
  {
    var r := Step(s);
    var c := NextChunk(s.rest);
    var e := ReadFile(c);
    assert r.trace == s.trace + [e];
    ExtendSummaries(s.trace, e);
    ExtendNoEot(s.trace, e);
    assert Reads(r.trace) == Reads(s.trace) + [c];
    assert Chunks(s.rest) == [c] + Pending(r);
    assert Reads(r.trace) + Pending(r) == Chunks(file);
    assert Holding(file, r);
  }

  lemma StagedTransmit(file: seq<byte>, s: Session)
    requires s.phase == Transmit && |s.chunk| <= BLOCK_SIZE && |s.trace| > 0
    requires Staged(file, s) && Reads(s.trace) <= Chunks(file)
    ensures Kept(file, Step(s))
  {
    var r := Step(s);
    var e := SendFrame(s.block, s.chunk);
    assert r.trace == s.trace + [e];
    ExtendSummaries(s.trace, e);
    ExtendNoEot(s.trace, e);
    assert Reads(r.trace) == Reads(s.trace);
    assert Pending(r) == Pending(s);
  }

  /** The response read after a frame, appended to the history: it reads no file
      data and writes no EOT. */
  lemma ResponseRead(file: seq<byte>, s: Session)
    requires s.phase == AwaitReply && |s.chunk| <= BLOCK_SIZE && |s.trace| > 0 && s.link != []
    requires Staged(file, s)
    ensures var r := Step(s);
      && r.trace == s.trace + [Recv(Response, s.link[0])]
      && Reads(r.trace) == Reads(s.trace) && NoEot(r.trace)
      && r.chunk == s.chunk && r.rest == s.rest && Summary(r) == Summary(s)
  {
    var e := Recv(Response, s.link[0]);
    assert Step(s).trace == s.trace + [e];
    ExtendSummaries(s.trace, e);
    ExtendNoEot(s.trace, e);
  }

  lemma StagedAck(file: seq<byte>, s: Session)
    requires s.phase == AwaitReply && |s.chunk| <= BLOCK_SIZE && |s.trace| > 0
    requires s.link != [] && s.link[0] == Byte(ACK)
    requires Staged(file, s) && Reads(s.trace) <= Chunks(file)
    ensures Kept(file, Step(s))
  {
    ResponseRead(file, s);
  }

  lemma StagedNotAck(file: seq<byte>, s: Session)
    requires s.phase == AwaitReply && |s.chunk| <= BLOCK_SIZE && |s.trace| > 0
    requires s.link != [] && s.link[0] != Byte(ACK)
    requires Staged(file, s) && Reads(s.trace) <= Chunks(file)
    ensures Kept(file, Step(s))
  {
    ResponseRead(file, s);
    assert Pending(Step(s)) == Pending(s);
  }

  lemma StagedAwaitReply(file: seq<byte>, s: Session)
    requires s.phase == AwaitReply && |s.chunk| <= BLOCK_SIZE && |s.trace| > 0
    requires Leads(s) && Staged(file, s) && Reads(s.trace) <= Chunks(file)
    ensures Kept(file, Step(s))
  {
    if s.link != [] {
      if s.link[0] == Byte(ACK) {
        StagedAck(file, s);
      } else {
        StagedNotAck(file, s);
      }
    }
  }

  lemma StagedEndTransmission(file: seq<byte>, s: Session)
    requires s.phase == EndTransmission && |s.chunk| <= BLOCK_SIZE && |s.trace| > 0
    requires Staged(file, s)
    ensures Kept(file, Step(s))
  {
    var r := Step(s);
    var t1 := s.trace + [SendEot];
    ExtendSummaries(s.trace, SendEot);
    if s.link == [] {
      assert r.trace == t1;
      assert Reads(r.trace) == Reads(s.trace);
    } else {
      var e := Recv(EotReply, s.link[0]);
      assert r.trace == t1 + [e];
      ExtendSummaries(t1, e);
      assert Reads(r.trace) == Reads(s.trace);
      assert Summary(r) == Summary(s);
    }
  }

  /** Every step of the sender preserves the session invariant. */
  lemma StepPreserves(file: seq<byte>, link: seq<Reply>, s: Session)
    requires Inv(file, link, s) && !s.phase.Halted?
    ensures Inv(file, link, Step(s))
  {
    StepLinked(link, s);
    match s.phase {
      case ReadNext =>
        ConformsReadNext(s);
        CountedReadNext(s);
        StagedReadNext(file, s);
      case Transmit =>
        ConformsTransmit(file, s);
        CountedTransmit(s);
        StagedTransmit(file, s);
      case AwaitReply =>
        ConformsAwaitReply(s);
        CountedAwaitReply(s);
        StagedAwaitReply(file, s);
      case EndTransmission =>
        ConformsEndTransmission(s);
        CountedEndTransmission(s);
        StagedEndTransmission(file, s);
    }
  }

  /** Running the sender to completion preserves the session invariant. */
  lemma {:induction false} RunPreserves(file: seq<byte>, link: seq<Reply>, s: Session)
    requires Inv(file, link, s)
    ensures Inv(file, link, Run(s))
    decreases |s.link|, Rank(s.phase)
  {
    if !s.phase.Halted? {
      StepPreserves(file, link, s);
      RunPreserves(file, link, Step(s));
    }
  }

  /** The session right after a handshake that read `n` replies, the last of them
      the first NAK, satisfies the invariant. */
  lemma StartInv(file: seq<byte>, link: seq<Reply>, n: nat)
    requires 0 < n <= |link| && link[n - 1] == Byte(NAK)
    requires forall i :: 0 <= i < n - 1 ==> link[i] != Byte(NAK)
    ensures Inv(file, link, Session(ReadNext, file, [], 0, 0, 0, link[n..], Heard(link[..n])))
  {
    var heard := link[..n];
    var s := Session(ReadNext, file, [], 0, 0, 0, link[n..], Heard(heard));
    HeardSummaries(heard);
    assert forall i :: 0 <= i < |heard| - 1 ==> heard[i] != Byte(NAK) by {
      assert forall i :: 0 <= i < |heard| ==> heard[i] == link[i];
    }
    HeardConforms(heard);
    assert heard + link[n..] == link;
    assert Last(s.trace) == Recv(Handshake, Byte(NAK));
    assert Reads(s.trace) + Chunks(s.rest) == Chunks(file);
  }

  /** When the initial NAK is seen, the transfer starts from a state satisfying the
      invariant: nothing read from the file, only handshake replies consumed. */
  lemma BeginEstablishes(file: seq<byte>, link: seq<Reply>)
    requires Handshake.WaitFor(NAK, link).Matched?
    ensures Inv(file, link, Begin(file, link))
  {
    var w := Handshake.WaitFor(NAK, link);
    assert Handshake.Used(w, link) == w.used;
    assert Begin(file, link) ==
           Session(ReadNext, file, [], 0, 0, 0, link[w.used..], Heard(link[..w.used]));
    StartInv(file, link, w.used);
  }
}
