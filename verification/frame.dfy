/** The 132-byte XMODEM frame built inline in `send`: header, padded payload and
    8-bit additive checksum. `Decode` is the receiving side's reading of a frame,
    the inverse the encoder is checked against. */
module Frame {
  import opened Protocol

  /** Sum of a byte sequence, as an unbounded integer. */
  function Sum(s: seq<byte>): nat
  {
    if s == [] then 0 else Sum(s[..|s| - 1]) + s[|s| - 1]
  }

  /** Right-fill a chunk of at most 128 bytes with SUB. */
  function Pad(chunk: seq<byte>): (p: seq<byte>)
    requires |chunk| <= BLOCK_SIZE
    ensures |p| == BLOCK_SIZE
    ensures p[..|chunk|] == chunk
    ensures forall i :: |chunk| <= i < BLOCK_SIZE ==> p[i] == SUB
  {
    chunk + seq(BLOCK_SIZE - |chunk|, _ => SUB)
  }

  /** `~block` truncated to a `char`. Complementing the 8 bits of a byte subtracts
      it from 0xFF (`NotIsSubtraction`), so the header's third byte is `255 - n`. */
  function Complement(n: byte): byte
  {
    255 - n
  }

  /** Bitwise NOT of 8 bits is subtraction from 0xFF. */
  lemma NotIsSubtraction(x: bv8)
    ensures !x == 0xFF - x
  {
  }

  /** The checksum byte: the 8-bit truncated sum of the payload. */
  function Checksum(payload: seq<byte>): byte
  {
    Sum(payload) % 256
  }

  /** The frame written for block number `n` carrying `chunk`. */
  function Encode(n: byte, chunk: seq<byte>): (f: seq<byte>)
    requires |chunk| <= BLOCK_SIZE
    ensures |f| == FRAME_SIZE
    ensures f[0] == SOH && f[1] == n && f[2] == 255 - n
    ensures forall i :: 0 <= i < BLOCK_SIZE ==>
              f[3 + i] == if i < |chunk| then chunk[i] else SUB
    ensures f[FRAME_SIZE - 1] == Sum(f[3..FRAME_SIZE - 1]) % 256
  {
    var payload := Pad(chunk);
    assert forall i :: 0 <= i < |chunk| ==> payload[i] == payload[..|chunk|][i];
    [SOH, n, Complement(n)] + payload + [Checksum(payload)]
  }

  datatype FrameError = BadLength | BadHeader | ChecksumMismatch

  datatype Decoded = Decoded(block: byte, payload: seq<byte>)

  datatype Result<T> = Ok(value: T) | Err(error: FrameError)

  /** Receiver-side validation of one frame: length, SOH, complement byte, checksum. */
  function Decode(f: seq<byte>): (r: Result<Decoded>)
    ensures r.Ok? <==>
              && |f| == FRAME_SIZE && f[0] == SOH && f[2] == 255 - f[1]
              && f[FRAME_SIZE - 1] == Sum(f[3..FRAME_SIZE - 1]) % 256
    ensures r.Ok? ==> r.value.block == f[1] && r.value.payload == f[3..FRAME_SIZE - 1]
    ensures r.Ok? ==>
              |r.value.payload| == BLOCK_SIZE && Encode(r.value.block, r.value.payload) == f
  {
    if |f| != FRAME_SIZE then Err(BadLength)
    else if f[0] != SOH || f[2] != Complement(f[1]) then Err(BadHeader)
    else if f[FRAME_SIZE - 1] != Checksum(f[3..FRAME_SIZE - 1]) then Err(ChecksumMismatch)
    else
      var d := Decoded(f[1], f[3..FRAME_SIZE - 1]);
      assert Pad(d.payload) == d.payload;
      assert f == [f[0], f[1], f[2]] + d.payload + [f[FRAME_SIZE - 1]];
      Ok(d)
  }

  /** decode(encode(n, p)) == (n, pad(p)): the frame carries its block number and the
      padded chunk, and passes the receiver's header and checksum tests. */
  lemma DecodeEncode(n: byte, chunk: seq<byte>)
    requires |chunk| <= BLOCK_SIZE
    ensures Decode(Encode(n, chunk)) == Ok(Decoded(n, Pad(chunk)))
  {
    var f := Encode(n, chunk);
    assert f[3..FRAME_SIZE - 1] == Pad(chunk);
  }

  /** `Decode` accepts exactly the byte strings `Encode` can write. */
  lemma DecodeAcceptsFrames(f: seq<byte>)
    ensures Decode(f).Ok? <==> exists n, c :: |c| <= BLOCK_SIZE && Encode(n, c) == f
  {
    if exists n, c :: |c| <= BLOCK_SIZE && Encode(n, c) == f {
      var n, c :| |c| <= BLOCK_SIZE && Encode(n, c) == f;
      DecodeEncode(n, c);
    }
  }

  /** Two frames are equal exactly when their block numbers and padded payloads are. */
  lemma EncodeInjective(n: byte, c: seq<byte>, m: byte, d: seq<byte>)
    requires |c| <= BLOCK_SIZE && |d| <= BLOCK_SIZE
    ensures Encode(n, c) == Encode(m, d) <==> n == m && Pad(c) == Pad(d)
  {
    if Encode(n, c) == Encode(m, d) {
      DecodeEncode(n, c);
      DecodeEncode(m, d);
    }
  }

  lemma {:induction false} SumSnoc(s: seq<byte>, b: byte)
    ensures Sum(s + [b]) == Sum(s) + b
  {
    assert (s + [b])[..|s|] == s;
  }

  /** Adding one more byte to the running 8-bit checksum. */
  lemma ChecksumStep(p: seq<byte>, i: nat)
    requires i < |p|
    ensures p[..i + 1] == p[..i] + [p[i]]
    ensures Sum(p[..i + 1]) % 256 == (Sum(p[..i]) % 256 + p[i]) % 256
  {
    assert p[..i + 1] == p[..i] + [p[i]];
    SumSnoc(p[..i], p[i]);
    ModAddLeft(Sum(p[..i]), p[i], 256);
  }

  /** The frame transmission at `current_block:` written the way the C loop does it:
      header, then 128 payload bytes with SUB substituted past `size`, an 8-bit running
      checksum, and `bytes_sent` bumped for the header, each real data byte and the
      checksum, each time wrapping as a `uint16_t`. */
  method TransmitFrame(block: byte, buffer: seq<byte>, bytesSent: u16)
    returns (wire: seq<byte>, sent: u16)
    requires |buffer| <= BLOCK_SIZE
    ensures wire == Encode(block, buffer)
    ensures sent == (bytesSent + 3 + |buffer| + 1) % U16_MODULUS
  {
    var header := [SOH, block, Complement(block)];
    ghost var payload := Pad(buffer);
    wire := header;
    sent := AddU16(bytesSent, 3);
    var checksum: byte := 0;
    var i := 0;
    while i < BLOCK_SIZE
      invariant 0 <= i <= BLOCK_SIZE
      invariant wire == header + payload[..i]
      invariant checksum == Sum(payload[..i]) % 256
      invariant sent == (bytesSent + 3 + Min(i, |buffer|)) % U16_MODULUS
    {
      var b := SUB;
      if i < |buffer| {
        b := buffer[i];
        sent := CountByte(bytesSent, 3 + i, sent);
      }
      assert b == payload[i];
      ChecksumStep(payload, i);
      AppendNext(header, payload, i);
      checksum := (checksum + b) % 256;
      wire := wire + [b];
      i := i + 1;
    }
    assert payload[..BLOCK_SIZE] == payload;
    sent := CountByte(bytesSent, 3 + |buffer|, sent);
    wire := wire + [checksum];
    EncodeParts(block, buffer);
  }

  /** `++bytes_sent` on a counter that has already counted `k` bytes since `base`. */
  function CountByte(base: u16, k: nat, sent: u16): (r: u16)
    requires sent == (base + k) % U16_MODULUS
    ensures r == (base + k + 1) % U16_MODULUS
  {
    ModAddLeft(base + k, 1, U16_MODULUS);
    AddU16(sent, 1)
  }

  /** Writing one more payload byte extends the bytes written by that byte. */
  lemma AppendNext(header: seq<byte>, p: seq<byte>, i: nat)
    requires i < |p|
    ensures header + p[..i + 1] == (header + p[..i]) + [p[i]]
  {
    assert p[..i + 1] == p[..i] + [p[i]];
  }

  /** A frame is its header, its padded payload and that payload's checksum. */
  lemma EncodeParts(n: byte, chunk: seq<byte>)
    requires |chunk| <= BLOCK_SIZE
    ensures Encode(n, chunk) == [SOH, n, Complement(n)] + Pad(chunk) + [Checksum(Pad(chunk))]
  {
  }
}
