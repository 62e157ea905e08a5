/** What one call of `send` guarantees, for every file and every sequence of replies
    on the link. */
module Guarantees {
  import opened Protocol
  import opened Trace
  import opened Sender
  import opened Chunking
  import opened SenderProofs
  import Handshake

  /** When the initial NAK is seen, the final session of the run satisfies the
      session invariant. */
  lemma TransferInv(file: seq<byte>, link: seq<Reply>)
    requires Handshake.WaitFor(NAK, link).Matched?
    ensures Inv(file, link, Run(Begin(file, link)))
  {
    BeginEstablishes(file, link);
    RunPreserves(file, link, Begin(file, link));
  }

  /** When the initial NAK is seen, `send` returns in a state whose history and
      report agree with its outcome. */
  lemma Finished(file: seq<byte>, link: seq<Reply>)
    requires Handshake.WaitFor(NAK, link).Matched?
    ensures var s := Run(Begin(file, link));
      && Send(file, link) == Transfer(s.trace, s.phase.outcome)
      && |s.trace| > 0 && Closes(file, s) && Counted(s)
  {
    TransferInv(file, link);
  }

  /** A run whose handshake did not see the NAK returns at once, having read up to
      16 replies, none of them a NAK. */
  lemma Unmatched(file: seq<byte>, link: seq<Reply>)
    requires !Handshake.WaitFor(NAK, link).Matched?
    ensures var w := Handshake.WaitFor(NAK, link);
      var n := Handshake.Used(w, link);
      && n == Min(Handshake.ATTEMPTS, |link|)
      && (forall i :: 0 <= i < n ==> link[i] != Byte(NAK))
      && Send(file, link) ==
           Transfer(Heard(link[..n]), if w.TimedOut? then HandshakeFailed else Starved)
  {
    var w := Handshake.WaitFor(NAK, link);
    var n := Handshake.Used(w, link);
    var s := Session(Halted(if w.TimedOut? then HandshakeFailed else Starved),
                     file, [], 0, 0, 0, link[n..], Heard(link[..n]));
    assert Begin(file, link) == s;
    assert Run(s) == s;
  }

  /** A handshake history that saw no NAK conforms, reads nothing from the file and
      writes nothing to the link. */
  lemma QuietHandshake(rs: seq<Reply>)
    requires forall i :: 0 <= i < |rs| ==> rs[i] != Byte(NAK)
    ensures var t := Heard(rs);
      && Conforms(t) && Reads(t) == [] && Replies(t) == rs
      && WellFormed(t) && Wire(t) == []
  {
    HeardSummaries(rs);
    HeardWire(rs);
    HeardConforms(rs);
  }

  /** The history of a run whose handshake failed or starved. */
  lemma HandshakeOnly(file: seq<byte>, link: seq<Reply>)
    requires !Handshake.WaitFor(NAK, link).Matched?
    ensures var T := Send(file, link);
      var n := Handshake.Used(Handshake.WaitFor(NAK, link), link);
      && T.trace == Heard(link[..n])
      && Conforms(T.trace) && Reads(T.trace) == [] && Replies(T.trace) == link[..n]
      && WellFormed(T.trace) && Wire(T.trace) == []
      && (T.outcome.Starved? ==> n == |link|)
  {
    var n := Handshake.Used(Handshake.WaitFor(NAK, link), link);
    Unmatched(file, link);
    assert forall i :: 0 <= i < |link[..n]| ==> link[..n][i] == link[i];
    QuietHandshake(link[..n]);
  }

  ghost predicate Obeys(file: seq<byte>, link: seq<Reply>, T: Transfer)
  {
    && Conforms(T.trace)
    && Replies(T.trace) <= link
    && (T.outcome.Starved? ==> Replies(T.trace) == link)
    && Reads(T.trace) <= Chunks(file)
  }

  /** A final session that satisfies the invariant obeys the protocol. */
  lemma HaltedObeys(file: seq<byte>, link: seq<Reply>, s: Session)
    requires Inv(file, link, s) && s.phase.Halted?
    ensures Obeys(file, link, Transfer(s.trace, s.phase.outcome))
  {
    var rs := Replies(s.trace);
    assert rs + s.link == link;
    assert link[..|rs|] == rs;
  }

  lemma TransferObeys(file: seq<byte>, link: seq<Reply>)
    requires Handshake.WaitFor(NAK, link).Matched?
    ensures Obeys(file, link, Send(file, link))
  {
    TransferInv(file, link);
    HaltedObeys(file, link, Run(Begin(file, link)));
  }

  lemma HandshakeObeys(file: seq<byte>, link: seq<Reply>)
    requires !Handshake.WaitFor(NAK, link).Matched?
    ensures Obeys(file, link, Send(file, link))
  {
    HandshakeOnly(file, link);
  }

  /** Every run obeys the protocol: it starts with the handshake, each event is one
      the protocol allows after the previous one, every frame carries the last chunk
      read and the block number of that chunk, and EOT follows an ACK exactly when
      the acknowledged chunk was short. The replies are consumed in link order, all
      of them when the run is starved, and the chunks are read in file order. */
  lemma SendConforms(file: seq<byte>, link: seq<Reply>)
    ensures var T := Send(file, link);
      && Conforms(T.trace)
      && Replies(T.trace) <= link
      && (T.outcome.Starved? ==> Replies(T.trace) == link)
      && Reads(T.trace) <= Chunks(file)
  {
    if Handshake.WaitFor(NAK, link).Matched? {
      TransferObeys(file, link);
    } else {
      HandshakeObeys(file, link);
    }
  }

  /** `send` gives up before writing anything exactly when NAK is not among the
      first 16 replies; it then has read exactly those 16 replies and nothing from
      the file. */
  lemma SendHandshakeFails(file: seq<byte>, link: seq<Reply>)
    ensures var T := Send(file, link);
      && (T.outcome == HandshakeFailed <==>
            |link| >= Handshake.ATTEMPTS && !Handshake.SeenWithin(NAK, link, Handshake.ATTEMPTS))
      && (T.outcome == HandshakeFailed ==>
            && WellFormed(T.trace) && Wire(T.trace) == []
            && Reads(T.trace) == []
            && Replies(T.trace) == link[..Handshake.ATTEMPTS])
  {
    if Handshake.WaitFor(NAK, link).Matched? {
      Finished(file, link);
    } else {
      Unmatched(file, link);
      HandshakeOnly(file, link);
    }
  }

  /** A completed transfer has read the whole file as its chunks, and reports the
      file size, the number of blocks and the bytes of every frame transmission
      (retransmissions included, padding excluded), each wrapped to its C width;
      its last event is the ACK of an EOT. */
  lemma SendCompleted(file: seq<byte>, link: seq<Reply>)
    requires Send(file, link).outcome.Completed?
    ensures var T := Send(file, link);
      && Reads(T.trace) == Chunks(file)
      && T.outcome.report.filesize == |file| % U16_MODULUS
      && T.outcome.report.blocks == |Chunks(file)| % 256
      && T.outcome.report.bytesSent == FrameCost(T.trace) % U16_MODULUS
      && |T.trace| > 0 && Last(T.trace) == Recv(EotReply, Byte(ACK))
  {
    if Handshake.WaitFor(NAK, link).Matched? {
      Finished(file, link);
      SumLenChunks(file);
    }
  }

  /** A CAN in the response loop ends the transfer without any EOT; the report
      still accounts for everything read and written up to then. */
  lemma SendCancelled(file: seq<byte>, link: seq<Reply>)
    requires Send(file, link).outcome.Cancelled?
    ensures var T := Send(file, link);
      && NoEot(T.trace)
      && |T.trace| > 0 && Last(T.trace) == Recv(Response, Byte(CAN))
      && T.outcome.report == Report(SumLen(Reads(T.trace)) % U16_MODULUS,
                                    FrameCost(T.trace) % U16_MODULUS,
                                    |Reads(T.trace)| % 256)
  {
    if Handshake.WaitFor(NAK, link).Matched? {
      Finished(file, link);
    }
  }

  /** A read error ends the transfer only in the response or EOT loop, right after
      the failed read; in the handshake it is just another non-matching attempt. */
  lemma SendLinkFault(file: seq<byte>, link: seq<Reply>)
    requires Send(file, link).outcome == LinkFault
    ensures var T := Send(file, link);
      && |T.trace| > 0 && Last(T.trace).Recv?
      && Last(T.trace).reply == Fault && Last(T.trace).stage != Handshake
  {
    if Handshake.WaitFor(NAK, link).Matched? {
      Finished(file, link);
    }
  }

  /** The last event of a run tells how `send` returned: it ends at a CAN read in
      the response loop exactly when cancelled, at the ACK of an EOT exactly when
      completed, and at a failed read outside the handshake exactly on a link fault. */
  lemma SendOutcomeOfLast(file: seq<byte>, link: seq<Reply>)
    ensures var T := Send(file, link);
      |T.trace| > 0 ==>
        && (Last(T.trace) == Recv(Response, Byte(CAN)) <==> T.outcome.Cancelled?)
        && (Last(T.trace) == Recv(EotReply, Byte(ACK)) <==> T.outcome.Completed?)
        && ((Last(T.trace).Recv? && Last(T.trace).stage != Handshake && Last(T.trace).reply == Fault)
            <==> T.outcome == LinkFault)
  {
    if Handshake.WaitFor(NAK, link).Matched? {
      Finished(file, link);
    } else {
      Unmatched(file, link);
      HandshakeOnly(file, link);
    }
  }

  /** A starved run has read every reply on the link and stopped where it needed one
      more: in the handshake after a non-NAK (or before any reply), or in the response
      or EOT loop after a frame, an EOT or a skipped response byte. */
  lemma SendStarved(file: seq<byte>, link: seq<Reply>)
    requires Send(file, link).outcome == Starved
    ensures var T := Send(file, link);
      && Replies(T.trace) == link
      && (|T.trace| == 0 ==> link == [])
      && (|T.trace| > 0 ==>
            || AwaitsReply(Last(T.trace))
            || (Last(T.trace).Recv? && Last(T.trace).stage == Handshake
                && Last(T.trace).reply != Byte(NAK)))
  {
    SendConforms(file, link);
    if Handshake.WaitFor(NAK, link).Matched? {
      Finished(file, link);
    } else {
      Unmatched(file, link);
      HandshakeOnly(file, link);
    }
  }
}
