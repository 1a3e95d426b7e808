/** HashingMachOWriteStream (runtime/vm/mach_o.cc:199-336): a write stream
    that buffers output and, until the hashed content is finalized, hashes
    every ChunkSize bytes it passes on to the wrapped stream. The code
    signature stores those hashes, one per page of the file before it.

    The buffer's storage (capacity, memmove, zone reallocation) is reduced to
    a byte sequence; when the buffer needs to grow is a parameter of each
    write. SHA-256 is kept symbolic: a digest is known by the chunk it covers. */
module MachOStream {
  import opened Alignment

  type Byte = b: int | 0 <= b < 0x100

  /** MachOWriteStream::kChunkSize, the code-signing page size. */
  const ChunkSize: nat := 0x1000
  /** MachOWriteStream::kHashSize, the length of a SHA-256 digest. */
  const HashSize: nat := 32

  datatype Digest = Sha256(chunk: seq<Byte>)

  lemma CeilDivStep(n: nat)
    requires n > ChunkSize
    ensures CeilDiv(n, ChunkSize) == CeilDiv(n - ChunkSize, ChunkSize) + 1
  {
    var c := CeilDiv(n - ChunkSize, ChunkSize);
    assert (c + 1) * ChunkSize == c * ChunkSize + ChunkSize;
    CeilDivUnique(n, ChunkSize, c + 1);
  }

  lemma CeilDivOne(n: nat)
    requires 0 < n <= ChunkSize
    ensures CeilDiv(n, ChunkSize) == 1
  {
    CeilDivUnique(n, ChunkSize, 1);
  }

  /** The digests of `b` cut into ChunkSize pieces, the last one possibly
      shorter: one digest per chunk started. */
  function Chunks(b: seq<Byte>): (r: seq<Digest>)
    ensures |r| == CeilDiv(|b|, ChunkSize)
    ensures forall i :: 0 <= i < |r| ==> 0 < |r[i].chunk| <= ChunkSize
    decreases |b|
  {
    if |b| == 0 then
      CeilDivUnique(0, ChunkSize, 0);
      []
    else if |b| <= ChunkSize then
      CeilDivOne(|b|);
      [Sha256(b)]
    else
      CeilDivStep(|b|);
      [Sha256(b[..ChunkSize])] + Chunks(b[ChunkSize..])
  }

  /** The bytes the digests cover, in order. */
  function Covered(ds: seq<Digest>): seq<Byte> {
    if |ds| == 0 then [] else ds[0].chunk + Covered(ds[1..])
  }

  /** The digests cover exactly the hashed bytes, and every chunk but the last
      is a full page. */
  lemma {:induction false} ChunksCover(b: seq<Byte>)
    ensures Covered(Chunks(b)) == b
    ensures forall i :: 0 <= i < |Chunks(b)| - 1 ==> |Chunks(b)[i].chunk| == ChunkSize
    decreases |b|
  {
    if |b| > ChunkSize {
      var rest := b[ChunkSize..];
      ChunksCover(rest);
      assert Chunks(b)[1..] == Chunks(rest);
      assert b == b[..ChunkSize] + rest;
      forall i | 0 <= i < |Chunks(b)| - 1 ensures |Chunks(b)[i].chunk| == ChunkSize {
        if i > 0 {
          assert Chunks(b)[i] == Chunks(rest)[i - 1];
        }
      }
    } else if |b| > 0 {
      assert Chunks(b)[1..] == [];
    }
  }

  /** Hashing a page-aligned prefix first and the rest later gives the same
      digests as hashing everything at once. */
  lemma {:induction false} ChunksAppend(a: seq<Byte>, b: seq<Byte>)
    requires |a| % ChunkSize == 0
    ensures Chunks(a + b) == Chunks(a) + Chunks(b)
    decreases |a|
  {
    if |a| == 0 {
      assert a + b == b;
    } else {
      assert |a| >= ChunkSize;
      var a' := a[ChunkSize..];
      assert |a'| % ChunkSize == 0 by {
        ModAddMultiple(|a'|, 1, ChunkSize);
      }
      ChunksAppend(a', b);
      assert (a + b)[..ChunkSize] == a[..ChunkSize];
      assert (a + b)[ChunkSize..] == a' + b;
      if |a| == ChunkSize {
        assert a' == [];
        assert a' + b == b;
        if |b| == 0 {
          assert a + b == a;
        }
      }
    }
  }

  /** The first digest of the chunks of buffer[offset..count] is that of its
      first `len` bytes. */
  lemma ChunksFront(buffer: seq<Byte>, offset: nat, count: nat, len: nat)
    requires offset < count <= |buffer|
    requires len == if count - offset < ChunkSize then count - offset else ChunkSize
    ensures Chunks(buffer[offset..count]) == [Sha256(buffer[offset..offset + len])] + Chunks(buffer[offset + len..count])
  {
    var piece := buffer[offset..count];
    assert piece[..len] == buffer[offset..offset + len];
    assert piece[len..] == buffer[offset + len..count];
    if |piece| <= ChunkSize {
      assert buffer[offset + len..count] == [];
    }
  }

  /** Hash's loop invariant: the digests so far followed by those of the
      bytes still to hash are the digests of all `count` bytes. */
  predicate HashedUpTo(buffer: seq<Byte>, count: nat, offset: nat, ds: seq<Digest>)
    requires count <= |buffer|
  {
    if offset < count then ds + Chunks(buffer[offset..count]) == Chunks(buffer[..count])
    else ds == Chunks(buffer[..count])
  }

  lemma HashStep(buffer: seq<Byte>, count: nat, offset: nat, ds: seq<Digest>, len: nat)
    requires offset < count <= |buffer| && HashedUpTo(buffer, count, offset, ds)
    requires len == if count - offset < ChunkSize then count - offset else ChunkSize
    ensures HashedUpTo(buffer, count, offset + ChunkSize, ds + [Sha256(buffer[offset..offset + len])])
  {
    ChunksFront(buffer, offset, count, len);
    var d := Sha256(buffer[offset..offset + len]);
    assert ds + Chunks(buffer[offset..count]) == (ds + [d]) + Chunks(buffer[offset + len..count]);
    if offset + ChunkSize >= count {
      assert buffer[offset + len..count] == [];
    }
  }

  /** HashingMachOWriteStream::Hash: the digests of the first `count` buffered
      bytes, one SHA-256 per chunk, as the source's loop computes them. */
  method Hash(buffer: seq<Byte>, count: nat) returns (ds: seq<Digest>)
    requires count <= |buffer|
    ensures ds == Chunks(buffer[..count])
    ensures |ds| == CeilDiv(count, ChunkSize)
  {
    ds := [];
    var offset := 0;
    if count == 0 {
      assert buffer[..count] == [];
    } else {
      assert buffer[0..count] == buffer[..count];
    }
    while offset < count
      invariant HashedUpTo(buffer, count, offset, ds)
      decreases count - offset
    {
      var len := if count - offset < ChunkSize then count - offset else ChunkSize;
      HashStep(buffer, count, offset, ds, len);
      ds := ds + [Sha256(buffer[offset..offset + len])];
      offset := offset + ChunkSize;
    }
  }

  /** The stream's state: what has reached the wrapped stream, what is still
      buffered, whether content is still being hashed, and the digests so far. */
  datatype Stream = Stream(flushed: seq<Byte>, buffer: seq<Byte>, hashing: bool, hashes: seq<Digest>)

  const Initial := Stream([], [], true, [])

  /** Position(): the bytes flushed plus the bytes buffered. */
  function Position(s: Stream): nat { |s.flushed| + |s.buffer| }

  /** Everything written so far, in order. */
  function Written(s: Stream): seq<Byte> { s.flushed + s.buffer }

  /** FlushBytes: the first `count` buffered bytes move to the wrapped stream. */
  function FlushBytes(s: Stream, count: nat): (r: Stream)
    requires count <= |s.buffer|
    ensures Written(r) == Written(s) && Position(r) == Position(s)
    ensures |r.flushed| == |s.flushed| + count
    ensures r.hashing == s.hashing && r.hashes == s.hashes
  {
    assert s.flushed + s.buffer == (s.flushed + s.buffer[..count]) + s.buffer[count..];
    s.(flushed := s.flushed + s.buffer[..count], buffer := s.buffer[count..])
  }

  /** Flush: while hashing, hash the whole chunks buffered (and with
      `chunksOnly` false the final partial one too) and pass on only what was
      hashed; once hashing has ended, pass on everything. */
  function Flush(s: Stream, chunksOnly: bool): (r: Stream)
    ensures Written(r) == Written(s) && Position(r) == Position(s)
    ensures r.hashing == s.hashing
    ensures !s.hashing || !chunksOnly ==> r.buffer == []
    ensures s.hashing && chunksOnly ==> |r.buffer| < ChunkSize
  {
    var size := |s.buffer|;
    if s.hashing then
      var toHash := if chunksOnly then size - size % ChunkSize else size;
      FlushBytes(s.(hashes := s.hashes + Chunks(s.buffer[..toHash])), toHash)
    else FlushBytes(s, size)
  }

  /** The invariant the stream keeps while hashing: only whole pages have
      been flushed, and they have all been hashed, in order. */
  predicate Hashed(s: Stream) {
    s.hashing ==> |s.flushed| % ChunkSize == 0 && s.hashes == Chunks(s.flushed)
  }

  lemma FlushChunksKeepsHashed(s: Stream)
    requires Hashed(s)
    ensures Hashed(Flush(s, true))
  {
    if s.hashing {
      var size := |s.buffer|;
      var toHash := size - size % ChunkSize;
      assert toHash == (size / ChunkSize) * ChunkSize;
      MultipleMod(size / ChunkSize, ChunkSize);
      ModAddMultiple(|s.flushed| % ChunkSize, size / ChunkSize, ChunkSize);
      assert |s.flushed| == (|s.flushed| / ChunkSize) * ChunkSize;
      ModAddMultiple(toHash, |s.flushed| / ChunkSize, ChunkSize);
      ChunksAppend(s.flushed, s.buffer[..toHash]);
    }
  }

  lemma GrowKeepsHashed(s: Stream, grows: bool)
    ensures Hashed(s) ==> Hashed(if grows then Flush(s, true) else s)
  {
    if grows && Hashed(s) {
      FlushChunksKeepsHashed(s);
    }
  }

  /** A write of `bytes`. When `grows` is set the buffer lacked room first,
      so Realloc flushed the whole chunks before the buffer was enlarged. */
  function Write(s: Stream, bytes: seq<Byte>, grows: bool): (r: Stream)
    ensures Written(r) == Written(s) + bytes
    ensures Position(r) == Position(s) + |bytes|
    ensures r.hashing == s.hashing
    ensures Hashed(s) ==> Hashed(r)
  {
    GrowKeepsHashed(s, grows);
    var t := if grows then Flush(s, true) else s;
    t.(buffer := t.buffer + bytes)
  }

  /** FinalizeHashedContent: hash and flush everything buffered, including a
      final partial chunk, then stop hashing. */
  function FinalizeHashedContent(s: Stream): (r: Stream)
    requires s.hashing && Hashed(s)
    ensures !r.hashing && r.buffer == [] && Written(r) == Written(s)
    ensures r.hashes == Chunks(Written(s))
    ensures |r.hashes| == CeilDiv(Position(s), ChunkSize)
  {
    ChunksAppend(s.flushed, s.buffer);
    assert s.buffer[..|s.buffer|] == s.buffer;
    Flush(s, false).(hashing := false)
  }

  datatype WriteOp = WriteOp(bytes: seq<Byte>, grows: bool)

  function Concat(ops: seq<WriteOp>): seq<Byte> {
    if |ops| == 0 then [] else Concat(ops[..|ops| - 1]) + ops[|ops| - 1].bytes
  }

  function RunWrites(s: Stream, ops: seq<WriteOp>): (r: Stream)
    ensures Written(r) == Written(s) + Concat(ops)
    ensures r.hashing == s.hashing
    ensures Hashed(s) ==> Hashed(r)
  {
    if |ops| == 0 then s
    else
      var prev := RunWrites(s, ops[..|ops| - 1]);
      Write(prev, ops[|ops| - 1].bytes, ops[|ops| - 1].grows)
  }

  /** Whatever the pattern of buffer growth, finalizing after a sequence of
      writes yields the digests of the pages of everything written: one per
      ChunkSize bytes started (the count ExpectedNumHashes predicts). */
  lemma HashesOfEverythingWritten(ops: seq<WriteOp>)
    ensures FinalizeHashedContent(RunWrites(Initial, ops)).hashes == Chunks(Concat(ops))
    ensures |FinalizeHashedContent(RunWrites(Initial, ops)).hashes| == CeilDiv(|Concat(ops)|, ChunkSize)
    ensures Covered(FinalizeHashedContent(RunWrites(Initial, ops)).hashes) == Concat(ops)
  {
    assert Hashed(Initial);
    var s := RunWrites(Initial, ops);
    assert Written(s) == Concat(ops);
    ChunksCover(Concat(ops));
  }
}
