/** Facts about every history that obeys the protocol: what a NAK makes the sender
    write, and what the EOT loop may do. */
module History {
  import opened Protocol
  import opened Trace

  /** No chunk is read from the file at any position in `[a, b)`. */
  ghost predicate NoReadsBetween(t: seq<Event>, a: int, b: int)
    requires 0 <= a <= b <= |t|
  {
    forall m :: a <= m < b ==> !t[m].ReadFile?
  }

  /** Events that read no file data leave the chunks read so far unchanged. */
  lemma {:induction false} ReadsUnchanged(t: seq<Event>, a: int, b: int)
    requires 0 <= a <= b <= |t|
    requires NoReadsBetween(t, a, b)
    ensures Reads(t[..b]) == Reads(t[..a])
    decreases b - a
  {
    if a < b {
      ReadsUnchanged(t, a, b - 1);
      assert t[..b] == t[..b - 1] + [t[b - 1]];
      ExtendSummaries(t[..b - 1], t[b - 1]);
    }
  }

  /** Walking back from a read in the response loop reaches the frame it answers:
      every event after that frame up to this one is a response read. */
  lemma {:induction false} AnsweredFrame(t: seq<Event>, k: int) returns (j: int)
    requires Conforms(t) && 0 <= k < |t|
    requires t[k].Recv? && t[k].stage == Response
    ensures 0 <= j < k && t[j].SendFrame?
    ensures forall m :: j < m <= k ==> t[m].Recv? && t[m].stage == Response
    decreases k
  {
    assert k > 0;
    assert MayFollow(t[k - 1], t[k]);
    if t[k - 1].SendFrame? {
      j := k - 1;
    } else {
      j := AnsweredFrame(t, k - 1);
    }
  }

  /** A NAK in the response loop is answered by the same frame again: the next
      event writes the block number and data of the frame the NAK answered, and no
      chunk is read from the file in between. */
  lemma NakRetransmits(t: seq<Event>, k: int) returns (j: int)
    requires Conforms(t) && 0 <= k && k + 1 < |t|
    requires t[k] == Recv(Response, Byte(NAK))
    ensures 0 <= j < k && t[j].SendFrame?
    ensures t[k + 1] == t[j]
    ensures NoReadsBetween(t, j, k + 2)
  {
    j := AnsweredFrame(t, k);
    assert MayFollow(t[k], t[k + 1]);
    ReadsUnchanged(t, j, k + 1);
  }

  /** Once an EOT is written, the sender only writes EOTs and reads their replies. */
  lemma {:induction false} EotTail(t: seq<Event>, i: int, k: int)
    requires Chained(t) && 0 <= i <= k < |t|
    requires t[i].SendEot?
    ensures t[k].SendEot? || (t[k].Recv? && t[k].stage == EotReply)
    decreases k - i
  {
    if i < k {
      EotTail(t, i, k - 1);
      assert MayFollow(t[k - 1], t[k]);
    }
  }

  /** The EOT loop ends only on an ACK or a failed read: any other reply to an EOT
      that is not the last event is followed by another EOT. */
  lemma EotRepeats(t: seq<Event>, k: int)
    requires Chained(t) && 0 <= k && k + 1 < |t|
    requires t[k].Recv? && t[k].stage == EotReply
    ensures t[k].reply != Byte(ACK) && !t[k].reply.Fault?
    ensures t[k + 1] == SendEot
  {
    assert MayFollow(t[k], t[k + 1]);
  }
}
