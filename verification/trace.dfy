/** The sender's I/O history: what it read from the file, what it wrote to the
    serial link, and which replies it read back (tagged with the `read_char` call
    that consumed them). The bytes on the wire are a function of this history. */
module Trace {
  import opened Protocol
  import Frame
  import Chunking

  /** Which read of the link consumed a reply: the handshake in `wait_for`, the
      response loop after a frame, or the loop after an EOT. */
  datatype Stage = Handshake | Response | EotReply

  datatype Event =
    | ReadFile(data: seq<byte>)                  // one `read(file, buffer, BUFFER_SIZE)`
    | SendFrame(block: byte, data: seq<byte>)    // one transmission of a frame
    | SendEot                                    // one EOT byte written
    | Recv(stage: Stage, reply: Reply)           // one `read_char` on the link

  function Last<T>(s: seq<T>): T
    requires |s| > 0
  {
    s[|s| - 1]
  }

  /** The chunks read from the file, in order. */
  function Reads(t: seq<Event>): seq<seq<byte>>
  {
    if t == [] then []
    else Reads(t[..|t| - 1]) + (if Last(t).ReadFile? then [Last(t).data] else [])
  }

  /** The replies read from the link, in order. */
  function Replies(t: seq<Event>): seq<Reply>
  {
    if t == [] then []
    else Replies(t[..|t| - 1]) + (if Last(t).Recv? then [Last(t).reply] else [])
  }

  /** What `bytes_sent` accumulates, before wrapping: 3 header bytes, the real data
      bytes and 1 checksum byte per frame transmission; padding is not counted. */
  function FrameCost(t: seq<Event>): nat
  {
    if t == [] then 0
    else FrameCost(t[..|t| - 1]) + (if Last(t).SendFrame? then 3 + |Last(t).data| + 1 else 0)
  }

  /** A frame event carries at most one block of data. */
  predicate Fits(e: Event)
  {
    e.SendFrame? ==> |e.data| <= BLOCK_SIZE
  }

  /** Every frame written carries at most one block of data. */
  predicate WellFormed(t: seq<Event>)
  {
    forall i :: 0 <= i < |t| ==> Fits(t[i])
  }

  /** The bytes one event puts on the serial link. */
  function Emitted(e: Event): seq<byte>
    requires Fits(e)
  {
    match e
    case SendFrame(n, d) => Frame.Encode(n, d)
    case SendEot => [EOT]
    case _ => []
  }

  /** The bytes written to the serial link. */
  function Wire(t: seq<Event>): seq<byte>
    requires WellFormed(t)
  {
    if t == [] then []
    else
      var p := t[..|t| - 1];
      assert forall i :: 0 <= i < |p| ==> p[i] == t[i];
      Wire(p) + Emitted(Last(t))
  }

  /** The protocol's allowed successions of events: a file read is followed by the
      frame it fills; a frame by a response read; ACK by the next read or the first
      EOT; NAK by a retransmission; CAN, a read error in the response or EOT loop,
      and the ACK of an EOT end the history; any other response byte by another
      response read; a non-ACK after EOT by another EOT. In the handshake, NAK starts
      the transfer and anything else (including a failed read) leads to another try. */
  predicate MayFollow(a: Event, b: Event)
  {
    match a
    case ReadFile(_) => b.SendFrame?
    case SendFrame(_, _) => b.Recv? && b.stage == Response
    case SendEot => b.Recv? && b.stage == EotReply
    case Recv(Handshake, r) =>
      if r == Byte(NAK) then b.ReadFile? else b.Recv? && b.stage == Handshake
    case Recv(Response, r) =>
      if r == Byte(ACK) then b.ReadFile? || b.SendEot?
      else if r == Byte(NAK) then b.SendFrame?
      else if r == Byte(CAN) || r.Fault? then false
      else b.Recv? && b.stage == Response
    case Recv(EotReply, r) =>
      if r == Byte(ACK) || r.Fault? then false else b.SendEot?
  }

  /** After this event the sender's next action is to read a reply in the response
      or EOT loop: a frame or an EOT was just written, or a response byte other than
      ACK, NAK and CAN was skipped. */
  predicate AwaitsReply(e: Event)
  {
    || e.SendFrame?
    || e.SendEot?
    || (&& e.Recv? && e.stage == Response && e.reply.Byte?
        && e.reply.value != ACK && e.reply.value != NAK && e.reply.value != CAN)
  }

  /** Every adjacent pair of events is an allowed succession. */
  predicate Chained(t: seq<Event>)
  {
    forall i :: 0 < i < |t| ==> MayFollow(t[i - 1], t[i])
  }

  /** No EOT has been written. */
  predicate NoEot(t: seq<Event>)
  {
    forall i :: 0 <= i < |t| ==> !t[i].SendEot?
  }

  /** Each frame written carries the chunk most recently read from the file and the
      block number `(number of chunks read so far) mod 256`. */
  predicate Numbered(t: seq<Event>)
  {
    forall i :: 0 <= i < |t| && t[i].SendFrame? ==>
      && |Reads(t[..i])| > 0
      && t[i].block == |Reads(t[..i])| % 256
      && t[i].data == Last(Reads(t[..i]))
  }

  /** After an acknowledged frame, the sender writes EOT exactly when the chunk it
      last read is shorter than `BUFFER_SIZE - 1`, and reads the next chunk otherwise. */
  predicate StopRule(t: seq<Event>)
  {
    forall i :: 0 < i < |t| && t[i - 1] == Recv(Response, Byte(ACK)) ==>
      && |Reads(t[..i])| > 0
      && (t[i].SendEot? <==> Chunking.IsLast(Last(Reads(t[..i]))))
  }

  /** A history that starts with the handshake and obeys the protocol throughout. */
  predicate Conforms(t: seq<Event>)
  {
    && (|t| > 0 ==> t[0].Recv? && t[0].stage == Handshake)
    && WellFormed(t) && Chained(t) && Numbered(t) && StopRule(t)
  }

  /** The history of the handshake: the replies `wait_for` read. */
  function Heard(rs: seq<Reply>): (t: seq<Event>)
    ensures |t| == |rs|
    ensures forall i :: 0 <= i < |rs| ==> t[i] == Recv(Handshake, rs[i])
  {
    seq(|rs|, i requires 0 <= i < |rs| => Recv(Handshake, rs[i]))
  }

  /** Appending one event updates each summary of the history by that event alone. */
  lemma ExtendSummaries(t: seq<Event>, e: Event)
    ensures Reads(t + [e]) == Reads(t) + (if e.ReadFile? then [e.data] else [])
    ensures Replies(t + [e]) == Replies(t) + (if e.Recv? then [e.reply] else [])
    ensures FrameCost(t + [e]) == FrameCost(t) + (if e.SendFrame? then 3 + |e.data| + 1 else 0)
  {
    assert (t + [e])[..|t|] == t;
  }

  /** Appending one event appends exactly its bytes to the wire. */
  lemma ExtendWire(t: seq<Event>, e: Event)
    requires WellFormed(t) && Fits(e)
    ensures WellFormed(t + [e])
    ensures Wire(t + [e]) == Wire(t) + Emitted(e)
  {
    assert (t + [e])[..|t|] == t;
  }

  lemma PrefixOfExtended(t: seq<Event>, e: Event)
    ensures forall i :: 0 <= i <= |t| ==> (t + [e])[..i] == t[..i]
  {
    forall i | 0 <= i <= |t|
      ensures (t + [e])[..i] == t[..i]
    {
    }
  }

  /** The history-wide properties survive an appended event that satisfies them. */
  lemma ExtendChained(t: seq<Event>, e: Event)
    requires Chained(t) && (|t| > 0 ==> MayFollow(Last(t), e))
    ensures Chained(t + [e])
  {
    var t' := t + [e];
    forall i | 0 < i < |t'|
      ensures MayFollow(t'[i - 1], t'[i])
    {
      if i < |t| {
        assert t'[i - 1] == t[i - 1] && t'[i] == t[i];
      }
    }
  }

  lemma ExtendNoEot(t: seq<Event>, e: Event)
    requires NoEot(t) && !e.SendEot?
    ensures NoEot(t + [e])
  {
    var t' := t + [e];
    assert forall i :: 0 <= i < |t| ==> t'[i] == t[i];
  }

  lemma ExtendNumbered(t: seq<Event>, e: Event)
    requires Numbered(t)
    requires e.SendFrame? ==>
               |Reads(t)| > 0 && e.block == |Reads(t)| % 256 && e.data == Last(Reads(t))
    ensures Numbered(t + [e])
  {
    var t' := t + [e];
    PrefixOfExtended(t, e);
    forall i | 0 <= i < |t'| && t'[i].SendFrame?
      ensures |Reads(t'[..i])| > 0
      ensures t'[i].block == |Reads(t'[..i])| % 256
      ensures t'[i].data == Last(Reads(t'[..i]))
    {
      if i < |t| {
        assert t'[i] == t[i];
      }
    }
  }

  lemma ExtendStopRule(t: seq<Event>, e: Event)
    requires StopRule(t)
    requires |t| > 0 && Last(t) == Recv(Response, Byte(ACK)) ==>
               |Reads(t)| > 0 && (e.SendEot? <==> Chunking.IsLast(Last(Reads(t))))
    ensures StopRule(t + [e])
  {
    var t' := t + [e];
    PrefixOfExtended(t, e);
    forall i | 0 < i < |t'| && t'[i - 1] == Recv(Response, Byte(ACK))
      ensures |Reads(t'[..i])| > 0
      ensures t'[i].SendEot? <==> Chunking.IsLast(Last(Reads(t'[..i])))
    {
      if i < |t| {
        assert t'[i - 1] == t[i - 1] && t'[i] == t[i];
      }
    }
  }

  /** A conforming history stays conforming when the appended event may follow its
      last one, carries the current chunk and block number if it is a frame, and
      obeys the end rule if it follows an ACK. */
  lemma ExtendConforms(t: seq<Event>, e: Event)
    requires Conforms(t) && |t| > 0 && Fits(e) && MayFollow(Last(t), e)
    requires e.SendFrame? ==>
               |Reads(t)| > 0 && e.block == |Reads(t)| % 256 && e.data == Last(Reads(t))
    requires Last(t) == Recv(Response, Byte(ACK)) ==>
               |Reads(t)| > 0 && (e.SendEot? <==> Chunking.IsLast(Last(Reads(t))))
    ensures Conforms(t + [e])
  {
    ExtendWire(t, e);
    ExtendChained(t, e);
    ExtendNumbered(t, e);
    ExtendStopRule(t, e);
    assert (t + [e])[0] == t[0];
  }

  /** The handshake history records exactly the replies read, reads no file data
      and sends no frame. */
  lemma {:induction false} HeardSummaries(rs: seq<Reply>)
    ensures Reads(Heard(rs)) == []
    ensures Replies(Heard(rs)) == rs
    ensures FrameCost(Heard(rs)) == 0
    decreases |rs|
  {
    if rs != [] {
      var p := rs[..|rs| - 1];
      var e := Recv(Handshake, Last(rs));
      HeardSummaries(p);
      assert Heard(rs) == Heard(p) + [e];
      assert p + [Last(rs)] == rs;
      ExtendSummaries(Heard(p), e);
    }
  }

  /** The handshake writes nothing to the link. */
  lemma {:induction false} HeardWire(rs: seq<Reply>)
    ensures WellFormed(Heard(rs)) && Wire(Heard(rs)) == []
    decreases |rs|
  {
    if rs != [] {
      var p := rs[..|rs| - 1];
      var e := Recv(Handshake, Last(rs));
      HeardWire(p);
      assert Heard(rs) == Heard(p) + [e];
      ExtendWire(Heard(p), e);
    }
  }

  /** The handshake history is a chain of handshake attempts when only its last
      reply can be the NAK. */
  lemma HeardConforms(rs: seq<Reply>)
    requires forall i :: 0 <= i < |rs| - 1 ==> rs[i] != Byte(NAK)
    ensures NoEot(Heard(rs)) && Conforms(Heard(rs))
  {
    var t := Heard(rs);
    forall i | 0 < i < |t|
      ensures MayFollow(t[i - 1], t[i])
    {
      assert t[i - 1] == Recv(Handshake, rs[i - 1]);
    }
  }
}
