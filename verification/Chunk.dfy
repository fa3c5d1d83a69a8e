/**
 * File chunking and reassembly (src/storage/chunk.rs).  SHA-256 is a parameter: any
 * function to 32-byte strings.
 */
module Chunk {
  import opened Wrappers
  import opened Identity
  import opened Slicing

  type Hash = h: seq<byte> | |h| == 32 witness ZERO_ID

  type Hasher = seq<byte> -> Hash

  const DEFAULT_CHUNK_SIZE: nat := 4 * 1024 * 1024

  datatype ChunkMeta = ChunkMeta(hash: Hash, index: nat, offset: nat, size: nat)

  datatype FileManifest = FileManifest(fileHash: Hash, fileSize: nat, chunks: seq<ChunkMeta>, chunkSize: nat)

  datatype ReassembleError = CountMismatch | SizeMismatch(index: nat) | HashMismatch

  function MetaOf(sha: Hasher, size: nat, i: nat, chunk: seq<byte>): ChunkMeta {
    ChunkMeta(sha(chunk), i, i * size, |chunk|)
  }

  function MetasOf(sha: Hasher, size: nat, chunks: seq<seq<byte>>): seq<ChunkMeta> {
    seq(|chunks|, i requires 0 <= i < |chunks| => MetaOf(sha, size, i, chunks[i]))
  }

  function ManifestOf(sha: Hasher, size: nat, data: seq<byte>): FileManifest
    requires size > 0
  {
    FileManifest(sha(data), |data|, MetasOf(sha, size, Pieces(data, size)), size)
  }

  /** The first chunk whose length differs from its metadata. */
  function WrongSize(metas: seq<ChunkMeta>, chunks: seq<seq<byte>>): Option<nat>
    requires |metas| == |chunks|
  {
    if metas == [] then None
    else if |chunks[0]| != metas[0].size then Some(metas[0].index)
    else WrongSize(metas[1..], chunks[1..])
  }

  function Reassembled(sha: Hasher, m: FileManifest, chunks: seq<seq<byte>>): Result<seq<byte>, ReassembleError> {
    if |chunks| != |m.chunks| then Err(CountMismatch)
    else
      match WrongSize(m.chunks, chunks)
      case Some(i) => Err(SizeMismatch(i))
      case None => if sha(Concat(chunks)) == m.fileHash then Ok(Concat(chunks)) else Err(HashMismatch)
  }

  lemma MetasNext(sha: Hasher, size: nat, pieces: seq<seq<byte>>, i: nat)
    requires i < |pieces|
    ensures |MetasOf(sha, size, pieces)| == |pieces|
    ensures MetasOf(sha, size, pieces)[..i + 1] == MetasOf(sha, size, pieces)[..i] + [MetaOf(sha, size, i, pieces[i])]
  {
  }

  lemma MetasDone(sha: Hasher, size: nat, pieces: seq<seq<byte>>)
    ensures |MetasOf(sha, size, pieces)| == |pieces|
    ensures MetasOf(sha, size, pieces)[..|pieces|] == MetasOf(sha, size, pieces)
    ensures MetasOf(sha, size, pieces)[..0] == []
  {
  }

  class Chunker {
    const chunkSize: nat
    const sha: Hasher

    ghost predicate Valid() { chunkSize > 0 }

    constructor (chunkSize: nat, sha: Hasher)
      ensures Valid() && this.sha == sha
      ensures this.chunkSize == if chunkSize == 0 then DEFAULT_CHUNK_SIZE else chunkSize
    {
      this.chunkSize := if chunkSize == 0 then DEFAULT_CHUNK_SIZE else chunkSize;
      this.sha := sha;
    }

    /** One chunk and its metadata. */
    method OneOf(data: seq<byte>, i: nat) returns (meta: ChunkMeta, slice: seq<byte>)
      requires Valid() && i < |Pieces(data, chunkSize)|
      ensures slice == Pieces(data, chunkSize)[i] && meta == MetaOf(sha, chunkSize, i, slice)
    {
      hide Pieces;
      PieceAt(data, chunkSize, i);
      var start := i * chunkSize;
      var end := if start + chunkSize <= |data| then start + chunkSize else |data|;
      slice := data[start..end];
      meta := ChunkMeta(sha(slice), i, start, |slice|);
    }

    method ChunkData(data: seq<byte>) returns (manifest: FileManifest, chunkData: seq<seq<byte>>)
      requires Valid()
      ensures manifest == ManifestOf(sha, chunkSize, data) && chunkData == Pieces(data, chunkSize)
    {
      hide Pieces, MetasOf;
      var fileHash := sha(data);
      var numChunks := if |data| == 0 then 0 else (|data| + chunkSize - 1) / chunkSize;
      PieceCount(data, chunkSize);
      var metas: seq<ChunkMeta> := [];
      chunkData := [];
      ghost var pieces := Pieces(data, chunkSize);
      MetasDone(sha, chunkSize, pieces);
      assert numChunks == |pieces|;
      hide Count, MetaOf;
      for i := 0 to numChunks
        invariant chunkData == pieces[..i]
        invariant metas == MetasOf(sha, chunkSize, pieces)[..i]
      {
        MetasNext(sha, chunkSize, pieces, i);
        var meta, slice := OneOf(data, i);
        metas := metas + [meta];
        chunkData := chunkData + [slice];
      }
      MetasDone(sha, chunkSize, pieces);
      manifest := FileManifest(fileHash, |data|, metas, chunkSize);
    }

    method Reassemble(m: FileManifest, chunks: seq<seq<byte>>) returns (r: Result<seq<byte>, ReassembleError>)
      ensures r == Reassembled(sha, m, chunks)
    {
      if |chunks| != |m.chunks| {
        return Err(CountMismatch);
      }
      for i := 0 to |chunks|
        invariant WrongSize(m.chunks, chunks) == WrongSize(m.chunks[i..], chunks[i..])
      {
        if |chunks[i]| != m.chunks[i].size {
          return Err(SizeMismatch(m.chunks[i].index));
        }
        assert m.chunks[i..][1..] == m.chunks[i + 1..] && chunks[i..][1..] == chunks[i + 1..];
      }
      assert WrongSize(m.chunks, chunks) == None;
      var result: seq<byte> := [];
      for i := 0 to |chunks|
        invariant result + Concat(chunks[i..]) == Concat(chunks)
      {
        assert chunks[i..][1..] == chunks[i + 1..];
        result := result + chunks[i];
      }
      assert result == Concat(chunks);
      if sha(result) != m.fileHash {
        return Err(HashMismatch);
      }
      return Ok(result);
    }
  }

  // ---------------------------------------------------------------------
  //  Round trip and integrity
  // ---------------------------------------------------------------------

  lemma {:induction false} RightSizes(metas: seq<ChunkMeta>, chunks: seq<seq<byte>>)
    requires |metas| == |chunks|
    ensures WrongSize(metas, chunks) == None <==> forall i | 0 <= i < |metas| :: metas[i].size == |chunks[i]|
  {
    if metas != [] {
      RightSizes(metas[1..], chunks[1..]);
      if metas[0].size == |chunks[0]| {
        assert forall i | 1 <= i < |metas| :: metas[i] == metas[1..][i - 1] && chunks[i] == chunks[1..][i - 1];
      }
    }
  }

  /** The chunks of a manifest tile the file: chunk i is the bytes at its offset, with their hash. */
  lemma ManifestDescribesFile(sha: Hasher, size: nat, data: seq<byte>)
    requires size > 0
    ensures var m := ManifestOf(sha, size, data);
      && m.fileHash == sha(data) && m.fileSize == |data| && m.chunkSize == size
      && |m.chunks| == Count(|data|, size)
      && forall i: nat | i < |m.chunks| :: IsChunk(sha, size, data, m.chunks[i], i)
  {
    hide Pieces, IsChunk;
    PieceCount(data, size);
    forall i: nat | i < |Pieces(data, size)|
      ensures IsChunk(sha, size, data, MetaOf(sha, size, i, Pieces(data, size)[i]), i)
    {
      OneChunk(sha, size, data, i);
    }
  }

  /** The metadata of chunk i of a file. */
  ghost predicate IsChunk(sha: Hasher, size: nat, data: seq<byte>, c: ChunkMeta, i: nat) {
    && c.index == i && c.offset == i * size < |data|
    && c.size == End(i * size, size, |data|) - i * size
    && c.hash == sha(data[i * size..End(i * size, size, |data|)])
  }

  lemma OneChunk(sha: Hasher, size: nat, data: seq<byte>, i: nat)
    requires size > 0 && i < |Pieces(data, size)|
    ensures IsChunk(sha, size, data, MetaOf(sha, size, i, Pieces(data, size)[i]), i)
  {
    hide Pieces;
    PieceAt(data, size, i);
  }

  lemma {:induction false} WrongSizeIsFirst(metas: seq<ChunkMeta>, chunks: seq<seq<byte>>)
    requires |metas| == |chunks|
    ensures match WrongSize(metas, chunks)
      case Some(x) => exists k: nat :: FirstWrong(metas, chunks, k) && metas[k].index == x
      case None => forall k: nat | k < |metas| :: |chunks[k]| == metas[k].size
  {
    if metas != [] {
      WrongSizeIsFirst(metas[1..], chunks[1..]);
      if |chunks[0]| != metas[0].size {
        assert FirstWrong(metas, chunks, 0);
      } else {
        assert forall k: nat | 0 < k < |metas| :: metas[k] == metas[1..][k - 1] && chunks[k] == chunks[1..][k - 1];
        if WrongSize(metas, chunks).Some? {
          var k: nat :| FirstWrong(metas[1..], chunks[1..], k) && metas[1..][k].index == WrongSize(metas, chunks).value;
          assert FirstWrong(metas, chunks, k + 1);
        }
      }
    }
  }

  ghost predicate FirstWrong(metas: seq<ChunkMeta>, chunks: seq<seq<byte>>, k: nat) {
    && k < |metas| == |chunks| && |chunks[k]| != metas[k].size
    && forall j: nat | j < k :: |chunks[j]| == metas[j].size
  }

  /**
   * The checks in their order: the number of chunks, then the first chunk of a wrong size, then
   * the hash of the whole.
   */
  lemma ReassembleAnswers(sha: Hasher, m: FileManifest, chunks: seq<seq<byte>>)
    ensures var r := Reassembled(sha, m, chunks);
      && (r == Err(CountMismatch) <==> |chunks| != |m.chunks|)
      && (forall x :: r == Err(SizeMismatch(x)) ==>
        exists k: nat :: FirstWrong(m.chunks, chunks, k) && m.chunks[k].index == x)
      && ((exists x :: r == Err(SizeMismatch(x))) <==> exists k: nat :: FirstWrong(m.chunks, chunks, k))
      && (r == Err(HashMismatch) <==>
        && |chunks| == |m.chunks| && (forall k: nat | k < |chunks| :: |chunks[k]| == m.chunks[k].size)
        && sha(Concat(chunks)) != m.fileHash)
      && (r.Ok? ==> r.value == Concat(chunks))
  {
    if |chunks| == |m.chunks| {
      WrongSizeIsFirst(m.chunks, chunks);
      match WrongSize(m.chunks, chunks) {
        case Some(x) => assert Reassembled(sha, m, chunks) == Err(SizeMismatch(x));
        case None =>
      }
    }
  }

  /** Chunking and reassembling gives the file back. */
  lemma ReassembleOfChunks(sha: Hasher, size: nat, data: seq<byte>)
    requires size > 0
    ensures Reassembled(sha, ManifestOf(sha, size, data), Pieces(data, size)) == Ok(data)
  {
    ConcatOfPieces(data, size);
    RightSizes(MetasOf(sha, size, Pieces(data, size)), Pieces(data, size));
  }

  /** Whatever chunks are offered for a file's manifest, success returns a file of its hash and length. */
  lemma ReassembleIsSound(sha: Hasher, size: nat, data: seq<byte>, chunks: seq<seq<byte>>)
    requires size > 0 && Reassembled(sha, ManifestOf(sha, size, data), chunks).Ok?
    ensures var r := Reassembled(sha, ManifestOf(sha, size, data), chunks).value;
      sha(r) == sha(data) && |r| == |data|
  {
    var metas := MetasOf(sha, size, Pieces(data, size));
    RightSizes(metas, chunks);
    SameLengths(Pieces(data, size), chunks);
    ConcatOfPieces(data, size);
  }

  lemma {:induction false} SameLengths(a: seq<seq<byte>>, b: seq<seq<byte>>)
    requires |a| == |b| && forall i | 0 <= i < |a| :: |a[i]| == |b[i]|
    ensures |Concat(a)| == |Concat(b)|
  {
    if a != [] {
      assert forall i | 0 <= i < |a| - 1 :: a[1..][i] == a[i + 1] && b[1..][i] == b[i + 1];
      SameLengths(a[1..], b[1..]);
    }
  }
}
