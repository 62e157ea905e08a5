# XMODEM sender model

This project models the sending side of the `xmodem` utility: the `send`
function and its helper `wait_for` in `xmodem/src/main.c`. The utility speaks the
checksum variant of XMODEM with 128-byte blocks.

- **Handshake.** The sender waits for the receiver's initial NAK. It reads at most
  16 bytes from the serial link.
- **Reading.** It reads the file in chunks of up to 128 bytes.
- **Framing.** Each chunk goes out as a 132-byte frame:
  - SOH;
  - the block number `n`;
  - its complement `255 - n`;
  - the chunk padded with SUB;
  - an 8-bit additive checksum.
- **Response loop.** After each frame it reads reply bytes:
  - ACK moves on to the end test;
  - NAK retransmits the same frame;
  - CAN ends the transfer at once;
  - anything else is skipped.
- **End test.** After an ACK, the transfer ends when the chunk held fewer than
  `BUFFER_SIZE - 1` = 127 bytes. So an empty file sends one all-SUB block, and a
  file whose length is 0 or 127 modulo 128 ends with an all-SUB block.
- **EOT loop.** It writes EOT until an ACK comes back.
- **Report.** It reports `filesize`, `bytes_sent` and `block`. These are `uint16_t`,
  `uint16_t` and `uint8_t`, and they wrap.

The serial link is a finite sequence of replies. A reply is a byte, or `Fault` for
a failed `read_char`. The file is a byte sequence. `send` becomes a small-step
machine, `Sender.Step`, over a session record, run to completion by `Sender.Run`.
Each step appends to an I/O history of four kinds of event:

- file reads;
- frame writes;
- EOT writes;
- reply reads, tagged with the loop that made them.

The bytes on the wire, `Trace.Wire`, are computed from that history with
`Frame.Encode`. `Sender.Send(file, link)` is one call of `send`: its history and
its outcome. The outcome is one of:

- `Completed(report)`;
- `Cancelled(report)`;
- `HandshakeFailed`;
- `LinkFault`;
- `Starved`: the link had no more replies.

The properties are proved in two ways:

- as invariants of the history that every step preserves (`SenderProofs`);
- as statements about every run (`Guarantees`, `History`).

A few concrete runs are stepped through in `Scenarios`.

Modules, in dependency order:

- `Protocol`: control bytes, `BUFFER_SIZE`, the integer widths and the link reply type.
- `Frame`: the frame codec, the receiver-side `Decode` it is checked against, and the
  byte-by-byte transmission loop.
- `Handshake`: `wait_for`.
- `Chunking`: how the file is cut into blocks, and the end test.
- `Trace`: the I/O history, and what makes a history follow the protocol.
- `Sender`: the state machine.
- `SenderProofs`: the session invariant and its preservation.
- `Guarantees`: what every call of `send` guarantees.
- `History`: retransmission and EOT-loop facts about every conforming history.
- `Scenarios`: concrete runs.

Where the protocol description and the code differ, the model follows the code:

- The end test is `size < 127`, not `size < 128`. So a file whose length is
  127 modulo 128 sends one block more than a reader of the protocol would expect.
- The code has no retry limit on NAKs, on unknown replies or on EOTs. These loops
  run as long as the link supplies replies.

## Model

| member | source | states |
|---|---|---|
| Protocol.Succ | xmodem/src/main.c:164 | `++block` on a `uint8_t` adds one, and 255 wraps to 0 |
| Protocol.AddU16 | xmodem/src/main.c:162 | adding to a `uint16_t` counter gives a result congruent to the true sum modulo 65536 |
| Frame.Pad | xmodem/src/main.c:174-179 | the padded payload is 128 bytes: it starts with the chunk, and every position at or past `size` is SUB |
| Frame.Encode | xmodem/src/main.c:164-196 | a frame is 132 bytes: SOH, `n`, `255 - n`, payload byte `i` (`chunk[i]` below `size`, else SUB), then the payload sum modulo 256 |
| Frame.NotIsSubtraction | xmodem/src/main.c:164 | the bitwise NOT of 8 bits is 0xFF minus them, so the header's `~block` byte is `255 - block` |
| Frame.Decode | xmodem/src/main.c:164-196 | a receiver's reading of a frame: whatever it accepts is a 128-byte payload and a block number that `Encode` turns back into exactly the bytes read (the other direction of the round trip) |
| Frame.DecodeAcceptsFrames | xmodem/src/main.c:164-196 | `Decode` accepts exactly the byte strings that `Encode` can produce for some block number and chunk of at most 128 bytes |
| Frame.DecodeEncode | xmodem/src/main.c:164-196 | decoding the frame written for block `n` and a chunk gives back `n` and the padded chunk |
| Frame.EncodeInjective | xmodem/src/main.c:164-196 | two frames are equal exactly when their block numbers and padded payloads are equal |
| Frame.TransmitFrame | xmodem/src/main.c:165-196 | the byte-by-byte loop writes exactly `Encode(block, buffer)`, and adds 3 + `size` + 1 to `bytes_sent` modulo 65536; padding is not counted |
| Handshake.Poll | xmodem/src/main.c:51-61 | with `k` attempts left, the wait succeeds iff the expected byte is among the next `k` replies, and then stops at its first occurrence; it times out iff `k` replies are there and none matches |
| Handshake.WaitFor | xmodem/src/main.c:44-62 | `wait_for` succeeds iff the expected byte is among the first 16 replies; on success it has consumed exactly the replies up to its first occurrence; it fails iff 16 replies arrive without it; otherwise the link ran dry |
| Chunking.NextChunk | xmodem/src/main.c:156-157 | a `read` of `BUFFER_SIZE` returns the next `min(128, remaining)` bytes of the file, and the file is that chunk followed by the rest |
| Chunking.FlattenChunks | xmodem/src/main.c:154-229 | the chunks the transmit loop reads, concatenated, are the whole file |
| Chunking.SumLenChunks | xmodem/src/main.c:162 | the sizes of the chunks read add up to the file length |
| Chunking.ChunkSizes | xmodem/src/main.c:225-228 | there is at least one chunk; each fits one block; every chunk but the last passes the continue test (`size >= 127`); the last fails it |
| Chunking.ShortFile | xmodem/src/main.c:225-228 | a file shorter than 128 bytes is one chunk, followed by an empty chunk exactly when it is 127 bytes long |
| Chunking.ChunkCount | xmodem/src/main.c:225-228 | a file of length L goes out in L / 128 + 1 blocks, or L / 128 + 2 when L mod 128 is 127 |
| Chunking.EmptyLastChunk | xmodem/src/main.c:225-228 | the final block carries no data (all SUB) exactly when L mod 128 is 0 or 127 |
| Sender.Step | xmodem/src/main.c:154-251 | every step of `send` either consumes a reply from the link or moves on to a lower-ranked phase, and the buffer never exceeds one block |
| Sender.Run | xmodem/src/main.c:154-251 | for every finite link, the machine reaches a state where `send` has returned; a returned session stays as it is, and the transfer loops never end in a handshake failure |
| Sender.Begin | xmodem/src/main.c:139-153 | after `wait_for`, the transfer starts exactly when the NAK was seen, and `send` returns a handshake failure exactly when the 16 attempts ran out; the whole file is unread, the buffer is empty, `block`, `filesize` and `bytes_sent` are 0, and the history is the replies the handshake consumed, taken from the front of the link |
| Sender.Send | xmodem/src/main.c:139-144 | one call of `send` reports a handshake failure exactly when `wait_for` timed out; whenever the NAK is not seen, it returns at once with only the handshake replies in its history |
| SenderProofs.StepPreserves | xmodem/src/main.c:154-251 | each step preserves the session invariant; the invariant ties the counters, the buffer, the unread rest of the file and the unread replies to the history, and requires the history to follow the protocol |
| SenderProofs.RunPreserves | xmodem/src/main.c:154-251 | a run to completion preserves the session invariant |
| SenderProofs.BeginEstablishes | xmodem/src/main.c:139-153 | once `wait_for` has seen the NAK, the transfer starts in a state that satisfies the invariant |
| SenderProofs.StepLinked | xmodem/src/main.c:200-206 | each step consumes replies in link order, exactly as it records them in the history |
| SenderProofs.CountedReadNext | xmodem/src/main.c:156-164 | after a file read, `filesize` is the total size of the chunks read and `block` is their count, each wrapped |
| SenderProofs.CountedTransmit | xmodem/src/main.c:166-196 | after a frame transmission, `bytes_sent` is the header, data and checksum bytes of all transmissions so far, wrapped |
| SenderProofs.ConformsTransmit | xmodem/src/main.c:164-196 | a frame written at `current_block:` carries the chunk last read and the number of chunks read, modulo 256, as its block number |
| SenderProofs.ConformsAwaitReply | xmodem/src/main.c:200-224 | the response loop keeps the history conforming for each of ACK, NAK, CAN, a failed read and any other byte |
| SenderProofs.StagedAwaitReply | xmodem/src/main.c:208-228 | after an ACK the machine reads the next chunk iff the acknowledged chunk has 127 bytes or more, and writes EOT otherwise; after a NAK it transmits the buffer again |
| SenderProofs.ConformsEndTransmission | xmodem/src/main.c:236-251 | an EOT write followed by one reply read keeps the history conforming |
| Guarantees.SendConforms | xmodem/src/main.c:139-258 | every run follows the protocol (see below); it consumes a prefix of the link, and all of it when starved; it reads a prefix of the file's chunks, in order |
| Guarantees.SendHandshakeFails | xmodem/src/main.c:139-144 | `send` fails the handshake iff at least 16 replies arrive and none of the first 16 is NAK; it has then written nothing, read nothing from the file, and consumed exactly 16 replies |
| Guarantees.HandshakeOnly | xmodem/src/main.c:44-62 | when no NAK is seen, the history is just the handshake replies read; nothing is read from the file or written to the link |
| Guarantees.Unmatched | xmodem/src/main.c:44-62 | when no NAK is seen, the handshake has read min(16, link length) replies, none a NAK |
| Guarantees.Finished | xmodem/src/main.c:151-258 | once the NAK is seen, the run ends in a state whose history ends as its outcome requires (a CAN for a cancel, a failed response or EOT read for a link fault, the ACK of an EOT for completion, and for a starved run an event after which a reply is awaited, with the link empty) and whose counters agree with the history |
| Guarantees.SendCompleted | xmodem/src/main.c:236-258 | a completed transfer read the file's chunks in order; it reports the file length modulo 65536, the block count modulo 256 and the frame bytes of every transmission (retransmissions included) modulo 65536; its last event is the ACK of an EOT |
| Guarantees.SendCancelled | xmodem/src/main.c:215-218 | a CAN in the response loop ends the run with no EOT ever written; the report covers the chunks read and frames sent up to then |
| Guarantees.SendLinkFault | xmodem/src/main.c:202-206 | a link fault ends the run only right after a failed read in the response or EOT loop, never in the handshake |
| Guarantees.SendOutcomeOfLast | xmodem/src/main.c:202-251 | in a non-empty history, the last event is a CAN response exactly when the run was cancelled, the ACK of an EOT exactly when it completed, and a failed read after the handshake exactly when it ended in a link fault |
| Guarantees.SendStarved | xmodem/src/main.c:154-251 | a starved run read every reply on the link, and its history is empty only for an empty link; otherwise it ends with a frame, an EOT, a skipped response byte, or a handshake read that was not NAK |
| History.AnsweredFrame | xmodem/src/main.c:200-224 | every response read in a conforming history answers a frame written earlier, with only response reads in between |
| History.NakRetransmits | xmodem/src/main.c:211-214 | the event after a NAK in the response loop writes the same block number and data as the frame the NAK answered, and no file read happens in between |
| History.ReadsUnchanged | xmodem/src/main.c:165-224 | events that are not file reads leave the sequence of chunks read unchanged |
| History.EotTail | xmodem/src/main.c:236-251 | once an EOT is written, only EOT writes and replies to them follow |
| History.EotRepeats | xmodem/src/main.c:250 | a reply to an EOT that is not the last event is neither ACK nor a failed read, and another EOT follows it |
| Trace.ExtendConforms | xmodem/src/main.c:154-251 | appending an event keeps a history conforming when the event may follow the last one, a frame carries the current chunk and block number, and an event after an ACK obeys the end test |
| Trace.HeardConforms | xmodem/src/main.c:51-61 | a handshake history in which only the last reply can be NAK conforms and contains no EOT |
| Trace.HeardSummaries | xmodem/src/main.c:51-61 | the handshake reads nothing from the file, sends no frame, and records exactly the replies it read |
| Scenarios.OneBlock | xmodem/src/main.c:139-258 | a file under 127 bytes, with link NAK, ACK, ACK, gives one read, frame 1, its ACK, one EOT and its ACK; the report is (size, size + 4, 1) |
| Scenarios.FirstFrame | xmodem/src/main.c:154-196 | after the handshake, the sender reads the first chunk and writes it as block 1, with `filesize` and `bytes_sent` counting it once |
| Scenarios.NakResend | xmodem/src/main.c:211-214 | a NAK makes the sender write the frame in its buffer again and count its bytes again, without reading the file |
| Scenarios.AckTail | xmodem/src/main.c:208-251 | with a short chunk, an ACK leaves the response loop; one EOT is written, its ACK is read, and the counters are reported unchanged |
| Scenarios.OneBlockWire | xmodem/src/main.c:164-251 | the bytes written by such a run are the frame followed by a single EOT |
| Scenarios.EmptyFrame | xmodem/src/main.c:164-196 | the frame for an empty chunk in block 1 is 01 01 FE, then 128 SUB bytes, then checksum 0 |
| Scenarios.Retransmission | xmodem/src/main.c:211-214 | a NAK after frame 1 makes the sender write the identical frame again without reading the file, and `bytes_sent` counts both |
| Scenarios.StarvedAfterFrame | xmodem/src/main.c:154-206 | with only the handshake NAK on the link, the sender still reads the first chunk and writes frame 1, then starves waiting for its reply |
| Scenarios.Cancellation | xmodem/src/main.c:215-218 | a CAN after frame 1 ends the run with no EOT, and the report is (size, size + 4, 1) |
| Scenarios.NoiseIgnored | xmodem/src/main.c:219-223 | a stray byte before the handshake NAK and one before the ACK are both skipped, and the transfer completes normally |
| Scenarios.TrailingPadBlock | xmodem/src/main.c:225-228 | a 128-byte file is sent as that block followed by an empty (all-SUB) block |
| Scenarios.ThreeBlocks | xmodem/src/main.c:154-229 | a 300-byte file is sent as blocks of 128, 128 and 44 bytes |

"Follows the protocol" (`Trace.Conforms`) means all of the following:

- The history starts with a handshake read.
- Every frame carries at most one block.
- Each event is allowed after the previous one (`Trace.MayFollow`):
  - a file read is followed by its frame;
  - a frame is followed by a response read;
  - ACK is followed by the next read or by EOT;
  - NAK is followed by a retransmission;
  - CAN, a failed response or EOT read, and the ACK of an EOT end the history;
  - any other byte in the handshake or the response loop is followed by another
    read of the same kind;
  - any reply to an EOT other than ACK is followed by another EOT.
- Every frame carries the last chunk read, numbered by the count of chunks read
  modulo 256 (so the numbers run 1, 2, ..., 255, 0, 1, ...).
- After an ACK, EOT comes exactly when the acknowledged chunk is shorter than 127
  bytes.

## Left out

- `receive`, `main` and `print_usage` are not part of this model. They are the
  receive stub and the command-line glue.
- Opening and closing the file and the serial device, and the error returns when
  opening fails (xmodem/src/main.c:120-135): file-system I/O.
- File read errors (xmodem/src/main.c:158-161): a `read` always returns the next
  `min(128, remaining)` bytes.
- UART write errors: every write to the device succeeds. The model does not
  cover what the code does when one fails:
  - a failed header or checksum write (xmodem/src/main.c:168-171, 192-195) leaves
    the transmit loop and goes on to the EOT loop;
  - a failed data-byte write (xmodem/src/main.c:183-186) leaves only the byte loop,
    so the checksum is still written;
  - a failed EOT write (xmodem/src/main.c:240-242) is only reported, and the reply
    is still read.
- Progress output: the `printf` calls, the `.`, `N`, `C`, `X` markers on stdout, and
  the newline every 40 blocks. They have no effect on the link.
- `msleep(200)` before the EOT loop (xmodem/src/main.c:234): timing only.
- Real timeouts and blocking reads. A `read_char` either returns a byte or fails.
  When the finite link runs out, the run ends with the `Starved` outcome. The C
  program would keep waiting instead.
- Handshake.Poll: a failed `read_char` in `wait_for` counts as a non-matching
  attempt. If the very first read fails, the C buffer is uninitialised and could
  in principle hold NAK. The model does not cover that case.
- Frame.Encode: the header initializer `{ SOH, ++block, ~block }` does not fix the
  order in which `++block` and `~block` are evaluated. The model uses the
  complement of the incremented block, as the protocol requires.
- The signedness of `char checksum` is not modelled. The transmitted byte is the
  sum modulo 256 either way.
- Sender.Run: there is no retry budget for NAKs, unknown replies or EOTs, because
  the code has none. Termination comes only from the finite link.
