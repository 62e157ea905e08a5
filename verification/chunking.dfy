/** How `send` cuts the file into blocks: each `read(file, buffer, BUFFER_SIZE)`
    yields the next `min(128, remaining)` bytes, and after an acknowledged block the
    loop stops only when that block held fewer than `BUFFER_SIZE - 1` bytes. */
module Chunking {
  import opened Protocol

  /** The chunk size under which a chunk ends the transfer (`BUFFER_SIZE - 1`). */
  const LAST_LIMIT: nat := BLOCK_SIZE - 1

  /** One file read of `BUFFER_SIZE` bytes from the unread rest of the file. */
  function NextChunk(rest: seq<byte>): (c: seq<byte>)
    ensures |c| == Min(BLOCK_SIZE, |rest|)
    ensures rest == c + rest[|c|..]
  {
    rest[..Min(BLOCK_SIZE, |rest|)]
  }

  /** The end-of-data test after an ACK: `size < BUFFER_SIZE-1`. */
  predicate IsLast(chunk: seq<byte>)
  {
    |chunk| < LAST_LIMIT
  }

  /** The chunks the sender reads, in order, from a file it sends completely. */
  function Chunks(file: seq<byte>): (cs: seq<seq<byte>>)
    decreases |file|
  {
    var c := NextChunk(file);
    if IsLast(c) then [c] else [c] + Chunks(file[|c|..])
  }

  function Flatten(cs: seq<seq<byte>>): seq<byte>
  {
    if cs == [] then [] else cs[0] + Flatten(cs[1..])
  }

  /** Total number of bytes in a list of chunks. */
  function SumLen(cs: seq<seq<byte>>): nat
  {
    if cs == [] then 0 else SumLen(cs[..|cs| - 1]) + |cs[|cs| - 1]|
  }

  lemma {:induction false} SumLenAppend(a: seq<seq<byte>>, b: seq<seq<byte>>)
    ensures SumLen(a + b) == SumLen(a) + SumLen(b)
    decreases |b|
  {
    if b == [] {
      assert a + b == a;
    } else {
      var b' := b[..|b| - 1];
      assert (a + b)[..|a + b| - 1] == a + b';
      assert b[..|b| - 1] == b';
      SumLenAppend(a, b');
    }
  }

  /** Concatenating the chunks gives back the file: nothing is skipped or repeated. */
  lemma {:induction false} FlattenChunks(file: seq<byte>)
    ensures Flatten(Chunks(file)) == file
    decreases |file|
  {
    var c := NextChunk(file);
    if IsLast(c) {
      assert Flatten(Chunks(file)) == c + Flatten([]);
      assert c == file;
    } else {
      FlattenChunks(file[|c|..]);
      assert Chunks(file)[1..] == Chunks(file[|c|..]);
    }
  }

  /** The chunk sizes add up to the file length. */
  lemma {:induction false} SumLenChunks(file: seq<byte>)
    ensures SumLen(Chunks(file)) == |file|
    decreases |file|
  {
    var c := NextChunk(file);
    if IsLast(c) {
      assert Chunks(file) == [c];
      var none: seq<seq<byte>> := [];
      assert [c][..0] == none;
    } else {
      SumLenChunks(file[|c|..]);
      SumLenAppend([c], Chunks(file[|c|..]));
      var none: seq<seq<byte>> := [];
      assert [c][..0] == none;
    }
  }

  /** Every chunk fits one block; every chunk but the last is at least 127 bytes and
      the last is shorter than that. */
  lemma {:induction false} ChunkSizes(file: seq<byte>)
    ensures |Chunks(file)| > 0
    ensures forall k :: 0 <= k < |Chunks(file)| ==> |Chunks(file)[k]| <= BLOCK_SIZE
    ensures forall k :: 0 <= k < |Chunks(file)| - 1 ==> !IsLast(Chunks(file)[k])
    ensures IsLast(Chunks(file)[|Chunks(file)| - 1])
    decreases |file|
  {
    var c := NextChunk(file);
    if !IsLast(c) {
      ChunkSizes(file[|c|..]);
      var rest := Chunks(file[|c|..]);
      assert Chunks(file) == [c] + rest;
      forall k | 0 <= k < |Chunks(file)|
        ensures |Chunks(file)[k]| <= BLOCK_SIZE
      {
        if k > 0 { assert Chunks(file)[k] == rest[k - 1]; }
      }
      forall k | 0 <= k < |Chunks(file)| - 1
        ensures !IsLast(Chunks(file)[k])
      {
        if k > 0 { assert Chunks(file)[k] == rest[k - 1]; }
      }
    }
  }

  /** A file of at least one block starts with a full chunk, and the rest of the
      file is cut the same way. */
  lemma LongFile(file: seq<byte>)
    requires |file| >= BLOCK_SIZE
    ensures Chunks(file) == [file[..BLOCK_SIZE]] + Chunks(file[BLOCK_SIZE..])
    ensures |file[BLOCK_SIZE..]| == |file| - BLOCK_SIZE
    ensures |file| / BLOCK_SIZE == |file[BLOCK_SIZE..]| / BLOCK_SIZE + 1
    ensures |file| % BLOCK_SIZE == |file[BLOCK_SIZE..]| % BLOCK_SIZE
  {
    assert NextChunk(file) == file[..BLOCK_SIZE];
  }

  /** A file shorter than one block is one chunk, followed by an empty chunk when it
      is exactly 127 bytes long. */
  lemma ShortFile(file: seq<byte>)
    requires |file| < BLOCK_SIZE
    ensures Chunks(file) == if |file| == LAST_LIMIT then [file, []] else [file]
  {
    assert NextChunk(file) == file;
    if |file| == LAST_LIMIT {
      assert file[|file|..] == [];
      assert NextChunk([]) == [];
    }
  }

  /** The number of blocks sent for a file of length L is L/128 + 1, plus one more
      when L mod 128 is 127: a trailing all-SUB block follows when the last data
      chunk is 127 or 128 bytes long (an empty file still sends one block). */
  lemma {:induction false} ChunkCount(file: seq<byte>)
    ensures |Chunks(file)| == |file| / BLOCK_SIZE + (if |file| % BLOCK_SIZE == LAST_LIMIT then 2 else 1)
    decreases |file|
  {
    if |file| < BLOCK_SIZE {
      ShortFile(file);
    } else {
      LongFile(file);
      ChunkCount(file[BLOCK_SIZE..]);
    }
  }

  /** The last chunk carries no data exactly when the file length is 127 or 0 modulo
      128: then the final block is all SUB padding. */
  lemma {:induction false} EmptyLastChunk(file: seq<byte>)
    ensures |Chunks(file)| > 0
    ensures Chunks(file)[|Chunks(file)| - 1] == [] <==>
              |file| % BLOCK_SIZE == 0 || |file| % BLOCK_SIZE == LAST_LIMIT
    decreases |file|
  {
    if |file| < BLOCK_SIZE {
      ShortFile(file);
    } else {
      LongFile(file);
      var rest := file[BLOCK_SIZE..];
      EmptyLastChunk(rest);
      assert Chunks(file)[|Chunks(file)| - 1] == Chunks(rest)[|Chunks(rest)| - 1];
    }
  }
}
