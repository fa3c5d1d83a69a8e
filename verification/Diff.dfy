/** Block-level differences against a remote manifest (src/storage/diff.rs). */
module Diff {
  import opened Wrappers
  import opened Identity
  import opened Slicing
  import opened Chunk

  const MIN_DIFF_CHUNK_SIZE: nat := 4096

  datatype BlockStatus = Modified | Added | Deleted

  datatype BlockDiff = BlockDiff(index: nat, offset: nat, size: nat, status: BlockStatus, newHash: Hash, oldHash: Hash)

  datatype FileDiff = FileDiff(
    oldSize: nat, newSize: nat, changed: seq<BlockDiff>, unchangedCount: nat, filesMatch: bool)

  datatype DiffReport = DiffReport(diff: FileDiff, blocks: nat, bytes: nat, secs: nat)

  datatype DiffError = ChunkSizeMismatch

  function Max(a: nat, b: nat): nat { if a >= b then a else b }

  /** How block i changed from the remote metadata to the local chunks, if it did. */
  function BlockChange(sha: Hasher, remote: seq<ChunkMeta>, size: nat, local: seq<seq<byte>>, i: nat): Option<BlockDiff>
    requires i < Max(|remote|, |local|)
  {
    if i < |remote| && i < |local| then
      if sha(local[i]) == remote[i].hash then None
      else Some(BlockDiff(i, remote[i].offset, |local[i]|, Modified, sha(local[i]), remote[i].hash))
    else if i < |remote| then
      Some(BlockDiff(i, remote[i].offset, 0, Deleted, ZERO_ID, remote[i].hash))
    else
      Some(BlockDiff(i, i * size, |local[i]|, Added, sha(local[i]), ZERO_ID))
  }

  /** The changes among the first n blocks, in order. */
  function Changes(sha: Hasher, remote: seq<ChunkMeta>, size: nat, local: seq<seq<byte>>, n: nat): seq<BlockDiff>
    requires n <= Max(|remote|, |local|)
  {
    if n == 0 then []
    else
      Changes(sha, remote, size, local, n - 1)
      + (match BlockChange(sha, remote, size, local, n - 1) case Some(b) => [b] case None => [])
  }

  function DiffOf(sha: Hasher, size: nat, m: FileManifest, data: seq<byte>): Result<FileDiff, DiffError>
    requires size > 0
  {
    if m.chunkSize != size then Err(ChunkSizeMismatch)
    else if sha(data) == m.fileHash then Ok(FileDiff(m.fileSize, |data|, [], |m.chunks|, true))
    else
      var local := Pieces(data, size);
      var n := Max(|m.chunks|, |local|);
      var changed := Changes(sha, m.chunks, size, local, n);
      ChangedAtMost(sha, m.chunks, size, local, n);
      Ok(FileDiff(m.fileSize, |data|, changed, n - |changed|, false))
  }

  lemma {:induction false} ChangedAtMost(sha: Hasher, remote: seq<ChunkMeta>, size: nat, local: seq<seq<byte>>, n: nat)
    requires n <= Max(|remote|, |local|)
    ensures |Changes(sha, remote, size, local, n)| <= n
  {
    if n > 0 {
      ChangedAtMost(sha, remote, size, local, n - 1);
    }
  }

  /** Blocks that have to be sent. */
  function Transferred(changed: seq<BlockDiff>): seq<BlockDiff> {
    if changed == [] then []
    else (if changed[0].status == Deleted then [] else [changed[0]]) + Transferred(changed[1..])
  }

  function Bytes(blocks: seq<BlockDiff>): nat {
    if blocks == [] then 0 else blocks[0].size + Bytes(blocks[1..])
  }

  class BlockDiffEngine {
    const chunkSize: nat
    const sha: Hasher

    ghost predicate Valid() { chunkSize > 0 }

    constructor (chunkSize: nat, sha: Hasher)
      ensures Valid() && this.sha == sha
      ensures this.chunkSize == Max(chunkSize, MIN_DIFF_CHUNK_SIZE)
    {
      this.chunkSize := if chunkSize >= MIN_DIFF_CHUNK_SIZE then chunkSize else MIN_DIFF_CHUNK_SIZE;
      this.sha := sha;
    }

    /** The block of one index, on either side. */
    method CompareBlock(m: FileManifest, data: seq<byte>, localCount: nat, i: nat) returns (change: Option<BlockDiff>)
      requires Valid() && localCount == |Pieces(data, chunkSize)| && i < Max(|m.chunks|, localCount)
      ensures change == BlockChange(sha, m.chunks, chunkSize, Pieces(data, chunkSize), i)
    {
      hide Pieces;
      var start := i * chunkSize;
      if i < |m.chunks| && i < localCount {
        PieceAt(data, chunkSize, i);
        var end := if start + chunkSize <= |data| then start + chunkSize else |data|;
        var slice := data[start..end];
        var localHash := sha(slice);
        if localHash == m.chunks[i].hash {
          return None;
        }
        return Some(BlockDiff(i, m.chunks[i].offset, |slice|, Modified, localHash, m.chunks[i].hash));
      } else if i < |m.chunks| {
        return Some(BlockDiff(i, m.chunks[i].offset, 0, Deleted, ZERO_ID, m.chunks[i].hash));
      } else {
        PieceAt(data, chunkSize, i);
        var end := if start + chunkSize <= |data| then start + chunkSize else |data|;
        var slice := data[start..end];
        return Some(BlockDiff(i, start, |slice|, Added, sha(slice), ZERO_ID));
      }
    }

    method DiffFiles(m: FileManifest, data: seq<byte>) returns (r: Result<FileDiff, DiffError>)
      requires Valid()
      ensures r == DiffOf(sha, chunkSize, m, data)
    {
      hide Changes, Pieces, BlockChange;
      if m.chunkSize != chunkSize {
        return Err(ChunkSizeMismatch);
      }
      if sha(data) == m.fileHash {
        return Ok(FileDiff(m.fileSize, |data|, [], |m.chunks|, true));
      }
      var localCount := if |data| == 0 then 0 else (|data| + chunkSize - 1) / chunkSize;
      ghost var local := Pieces(data, chunkSize);
      PieceCount(data, chunkSize);
      var maxIndex := if |m.chunks| >= localCount then |m.chunks| else localCount;
      var changed: seq<BlockDiff> := [];
      var unchangedCount := 0;
      NoChanges(sha, m.chunks, chunkSize, local);
      for i := 0 to maxIndex
        invariant changed == Changes(sha, m.chunks, chunkSize, local, i)
        invariant unchangedCount + |changed| == i
      {
        ChangesNext(sha, m.chunks, chunkSize, local, i);
        var change := CompareBlock(m, data, localCount, i);
        match change
        case None => unchangedCount := unchangedCount + 1;
        case Some(b) => changed := changed + [b];
      }
      return Ok(FileDiff(m.fileSize, |data|, changed, unchangedCount, false));
    }

    /** At one megabyte per second, rounded down but at least one second for any transfer. */
    method GenerateReport(diff: FileDiff) returns (r: DiffReport)
      ensures r.diff == diff
      ensures r.blocks == |Transferred(diff.changed)| && r.bytes == Bytes(Transferred(diff.changed))
      ensures r.secs == if r.bytes == 0 then 0 else Max(r.bytes / 1_000_000, 1)
    {
      var blocks, bytes := 0, 0;
      for i := 0 to |diff.changed|
        invariant blocks + |Transferred(diff.changed[i..])| == |Transferred(diff.changed)|
        invariant bytes + Bytes(Transferred(diff.changed[i..])) == Bytes(Transferred(diff.changed))
      {
        assert diff.changed[i..][1..] == diff.changed[i + 1..];
        assert Transferred(diff.changed[i..]) ==
          (if diff.changed[i].status == Deleted then [] else [diff.changed[i]]) + Transferred(diff.changed[i + 1..]);
        BytesAppend(if diff.changed[i].status == Deleted then [] else [diff.changed[i]],
          Transferred(diff.changed[i + 1..]));
        match diff.changed[i].status
        case Added | Modified =>
          blocks := blocks + 1;
          bytes := bytes + diff.changed[i].size;
        case Deleted =>
      }
      var secs := 0;
      if bytes > 0 {
        secs := bytes / 1_000_000;
        if secs < 1 {
          secs := 1;
        }
      }
      return DiffReport(diff, blocks, bytes, secs);
    }
  }

  // ---------------------------------------------------------------------
  //  Shape of a diff
  // ---------------------------------------------------------------------

  lemma ChangeOfBlock(sha: Hasher, remote: seq<ChunkMeta>, size: nat, local: seq<seq<byte>>, i: nat)
    requires i < Max(|remote|, |local|) && BlockChange(sha, remote, size, local, i).Some?
    ensures var b := BlockChange(sha, remote, size, local, i).value;
      b.index == i && (if i < |local| then b.status != Deleted && b.size == |local[i]| else b.status == Deleted)
  {
  }

  lemma SnocMembers(s: seq<BlockDiff>, b: BlockDiff, bound: nat)
    requires (forall i, j | 0 <= i < j < |s| :: s[i].index < s[j].index) && forall x | x in s :: x.index < bound
    requires b.index == bound
    ensures forall i, j | 0 <= i < j < |s + [b]| :: (s + [b])[i].index < (s + [b])[j].index
    ensures forall x :: x in s + [b] <==> x in s || x == b
  {
    forall i | 0 <= i < |s|
      ensures s[i].index < bound
    {
      assert s[i] in s;
    }
  }

  /**
   * Indices strictly increase and point into the files; an index is listed exactly when its
   * block changed; a block is Added or Deleted only beyond the shorter file.
   */
  lemma {:induction false} ChangesShape(sha: Hasher, remote: seq<ChunkMeta>, size: nat, local: seq<seq<byte>>, n: nat)
    requires n <= Max(|remote|, |local|)
    ensures var c := Changes(sha, remote, size, local, n);
      && (forall i, j | 0 <= i < j < |c| :: c[i].index < c[j].index)
      && (forall b | b in c :: b.index < n && Some(b) == BlockChange(sha, remote, size, local, b.index))
      && (forall i | 0 <= i < n && BlockChange(sha, remote, size, local, i).Some? ::
            BlockChange(sha, remote, size, local, i).value in c)
  {
    hide BlockChange, Changes;
    if n == 0 {
      NoChanges(sha, remote, size, local);
    } else {
      ChangesShape(sha, remote, size, local, n - 1);
      ChangesNext(sha, remote, size, local, n - 1);
      if BlockChange(sha, remote, size, local, n - 1).Some? {
        var b := BlockChange(sha, remote, size, local, n - 1).value;
        ChangeOfBlock(sha, remote, size, local, n - 1);
        SnocMembers(Changes(sha, remote, size, local, n - 1), b, n - 1);
      }
    }
  }

  lemma NoChanges(sha: Hasher, remote: seq<ChunkMeta>, size: nat, local: seq<seq<byte>>)
    ensures Changes(sha, remote, size, local, 0) == []
  {
  }

  lemma ChangesNext(sha: Hasher, remote: seq<ChunkMeta>, size: nat, local: seq<seq<byte>>, n: nat)
    requires n < Max(|remote|, |local|)
    ensures var before, change := Changes(sha, remote, size, local, n), BlockChange(sha, remote, size, local, n);
      Changes(sha, remote, size, local, n + 1) == if change.Some? then before + [change.value] else before
  {
    hide BlockChange;
  }

  /** A diff never both adds and deletes blocks. */
  lemma AddedAndDeletedExclude(sha: Hasher, remote: seq<ChunkMeta>, size: nat, local: seq<seq<byte>>, n: nat)
    requires n <= Max(|remote|, |local|)
    ensures var c := Changes(sha, remote, size, local, n);
      forall a, b | a in c && b in c :: a.status == Added ==> b.status != Deleted
  {
    ChangesShape(sha, remote, size, local, n);
  }

  function TotalLength(parts: seq<seq<byte>>): nat {
    if parts == [] then 0 else TotalLength(parts[..|parts| - 1]) + |parts[|parts| - 1]|
  }

  lemma {:induction false} BytesAppend(a: seq<BlockDiff>, b: seq<BlockDiff>)
    ensures Bytes(a + b) == Bytes(a) + Bytes(b)
  {
    if a == [] {
      assert a + b == b;
    } else {
      BytesAppend(a[1..], b);
      assert (a + b)[1..] == a[1..] + b;
    }
  }

  lemma {:induction false} TransferredAppend(s: seq<BlockDiff>, b: BlockDiff)
    ensures Transferred(s + [b]) == Transferred(s) + (if b.status == Deleted then [] else [b])
  {
    if s == [] {
      assert [] + [b] == [b];
    } else {
      TransferredAppend(s[1..], b);
      assert (s + [b])[1..] == s[1..] + [b];
    }
  }

  lemma TransferredSnoc(s: seq<BlockDiff>, b: BlockDiff)
    ensures Bytes(Transferred(s + [b])) == Bytes(Transferred(s)) + (if b.status == Deleted then 0 else b.size)
    ensures |Transferred(s + [b])| == |Transferred(s)| + (if b.status == Deleted then 0 else 1)
  {
    TransferredAppend(s, b);
    BytesAppend(Transferred(s), if b.status == Deleted then [] else [b]);
    assert Bytes([b]) == b.size + Bytes([]);
  }

  /** Block i is on both sides with the same hash. */
  predicate Same(sha: Hasher, remote: seq<ChunkMeta>, local: seq<seq<byte>>, i: nat) {
    i < |remote| && i < |local| && sha(local[i]) == remote[i].hash
  }

  /** The local bytes, and blocks, among the first n that need not be sent. */
  function KeptBytes(sha: Hasher, remote: seq<ChunkMeta>, local: seq<seq<byte>>, n: nat): nat {
    if n == 0 then 0
    else KeptBytes(sha, remote, local, n - 1) + (if Same(sha, remote, local, n - 1) then |local[n - 1]| else 0)
  }

  function KeptBlocks(sha: Hasher, remote: seq<ChunkMeta>, local: seq<seq<byte>>, n: nat): nat {
    if n == 0 then 0
    else KeptBlocks(sha, remote, local, n - 1) + (if Same(sha, remote, local, n - 1) then 1 else 0)
  }

  /** What one block adds to the transfer. */
  function Cost(change: Option<BlockDiff>): nat {
    match change
    case Some(b) => if b.status == Deleted then 0 else b.size
    case None => 0
  }

  lemma ChangedIff(sha: Hasher, remote: seq<ChunkMeta>, size: nat, local: seq<seq<byte>>, n: nat)
    requires n < Max(|remote|, |local|)
    ensures var change := BlockChange(sha, remote, size, local, n);
      && (change.Some? <==> !Same(sha, remote, local, n))
      && (change.Some? ==> (change.value.status == Deleted <==> n >= |local|))
      && Cost(change) == if n < |local| && !Same(sha, remote, local, n) then |local[n]| else 0
  {
  }

  lemma TransferOfNext(sha: Hasher, remote: seq<ChunkMeta>, size: nat, local: seq<seq<byte>>, n: nat)
    requires n < Max(|remote|, |local|)
    ensures Bytes(Transferred(Changes(sha, remote, size, local, n + 1))) ==
      Bytes(Transferred(Changes(sha, remote, size, local, n))) + Cost(BlockChange(sha, remote, size, local, n))
    ensures |Transferred(Changes(sha, remote, size, local, n + 1))| ==
      |Transferred(Changes(sha, remote, size, local, n))| +
      (if n < |local| && !Same(sha, remote, local, n) then 1 else 0)
  {
    ChangedIff(sha, remote, size, local, n);
    hide BlockChange, Transferred, Bytes;
    var before := Changes(sha, remote, size, local, n);
    match BlockChange(sha, remote, size, local, n)
    case Some(b) => TransferredSnoc(before, b);
    case None => assert before + [] == before;
  }

  /** Every local block is sent or kept. */
  lemma {:induction false} TransferIsExact(
    sha: Hasher, remote: seq<ChunkMeta>, size: nat, local: seq<seq<byte>>, n: nat)
    requires n <= Max(|remote|, |local|)
    ensures var sent, seen := Transferred(Changes(sha, remote, size, local, n)), if n <= |local| then n else |local|;
      && Bytes(sent) + KeptBytes(sha, remote, local, n) == TotalLength(local[..seen])
      && |sent| + KeptBlocks(sha, remote, local, n) == seen
  {
    hide BlockChange, Transferred, Bytes, Changes, TotalLength;
    if n == 0 {
      NothingSent(sha, remote, size, local);
    } else {
      TransferIsExact(sha, remote, size, local, n - 1);
      TransferOfNext(sha, remote, size, local, n - 1);
      ChangedIff(sha, remote, size, local, n - 1);
      if n <= |local| {
        OneMorePiece(local, n);
      }
    }
  }

  lemma NothingSent(sha: Hasher, remote: seq<ChunkMeta>, size: nat, local: seq<seq<byte>>)
    ensures Transferred(Changes(sha, remote, size, local, 0)) == [] && Bytes([]) == 0
    ensures TotalLength(local[..0]) == 0
  {
  }

  lemma OneMorePiece(local: seq<seq<byte>>, n: nat)
    requires 0 < n <= |local|
    ensures TotalLength(local[..n]) == TotalLength(local[..n - 1]) + |local[n - 1]|
  {
    assert local[..n][..n - 1] == local[..n - 1];
  }

  lemma {:induction false} TotalLengthOfConcat(parts: seq<seq<byte>>)
    ensures TotalLength(parts) == |Concat(parts)|
  {
    if parts != [] {
      var init, last := parts[..|parts| - 1], parts[|parts| - 1];
      TotalLengthOfConcat(init);
      ConcatAppend(init, [last]);
      assert parts == init + [last];
      assert Concat([last]) == last;
    }
  }

  /**
   * For any manifest and any local file: unchanged and changed blocks add up, unless the file
   * hashes match, to the larger chunk count; the bytes and blocks sent are exactly those of the
   * file that are not kept, so no more than the file has.
   */
  lemma DiffAccounts(sha: Hasher, size: nat, m: FileManifest, data: seq<byte>)
    requires size > 0 && DiffOf(sha, size, m, data).Ok?
    ensures var d, local := DiffOf(sha, size, m, data).value, Pieces(data, size);
      var n := Max(|m.chunks|, |local|);
      && d.oldSize == m.fileSize && d.newSize == |data|
      && (d.filesMatch <==> sha(data) == m.fileHash)
      && (d.filesMatch ==> d.changed == [] && d.unchangedCount == |m.chunks|)
      && (!d.filesMatch ==>
        && d.unchangedCount + |d.changed| == Max(|m.chunks|, Count(|data|, size))
        && Bytes(Transferred(d.changed)) + KeptBytes(sha, m.chunks, local, n) == |data|
        && |Transferred(d.changed)| + KeptBlocks(sha, m.chunks, local, n) == Count(|data|, size))
      && Bytes(Transferred(d.changed)) <= |data|
  {
    var local := Pieces(data, size);
    var n := Max(|m.chunks|, |local|);
    PieceCount(data, size);
    ChangedAtMost(sha, m.chunks, size, local, n);
    TransferIsExact(sha, m.chunks, size, local, n);
    assert local[..|local|] == local;
    TotalLengthOfConcat(local);
    ConcatOfPieces(data, size);
  }

  /** One listed block: what is read off the file, and what off the manifest. */
  ghost predicate Describes(b: BlockDiff, sha: Hasher, size: nat, remote: seq<ChunkMeta>, data: seq<byte>)
    requires size > 0
  {
    var i, count := b.index, Count(|data|, size);
    && i < Max(|remote|, count)
    && b.status == (if i >= count then Deleted else if i >= |remote| then Added else Modified)
    && (i < |remote| ==> b.oldHash == remote[i].hash && b.offset == remote[i].offset)
    && (i >= |remote| ==> b.oldHash == ZERO_ID && b.offset == i * size)
    && (i >= count ==> b.newHash == ZERO_ID && b.size == 0)
    && (i < count ==>
      && i * size < |data|
      && var block := data[i * size..End(i * size, size, |data|)];
      && b.newHash == sha(block) && b.size == |block|
      && (i < |remote| ==> sha(block) != remote[i].hash))
  }

  /** Each listed block carries the offset, size and hashes of its two sides, and is listed because they differ. */
  lemma ChangedBlocksAreExact(sha: Hasher, size: nat, m: FileManifest, data: seq<byte>)
    requires size > 0 && DiffOf(sha, size, m, data).Ok?
    ensures forall b | b in DiffOf(sha, size, m, data).value.changed :: Describes(b, sha, size, m.chunks, data)
  {
    var local := Pieces(data, size);
    var n := Max(|m.chunks|, |local|);
    PieceCount(data, size);
    ChangesShape(sha, m.chunks, size, local, n);
    forall b | b in DiffOf(sha, size, m, data).value.changed
      ensures Describes(b, sha, size, m.chunks, data)
    {
      if b.index < |local| {
        PieceAt(data, size, b.index);
      }
    }
  }

  // ---------------------------------------------------------------------
  //  A diff is a patch
  // ---------------------------------------------------------------------

  /** Applying one block: transferred blocks take the new chunk, deleted ones go. */
  function Patch(blocks: map<nat, seq<byte>>, b: BlockDiff, after: seq<seq<byte>>): map<nat, seq<byte>>
    requires b.status != Deleted ==> b.index < |after|
  {
    if b.status == Deleted then blocks - {b.index} else blocks[b.index := after[b.index]]
  }

  function PatchAll(blocks: map<nat, seq<byte>>, changed: seq<BlockDiff>, after: seq<seq<byte>>): map<nat, seq<byte>>
    requires forall b | b in changed :: b.status != Deleted ==> b.index < |after|
    decreases |changed|
  {
    if changed == [] then blocks else PatchAll(Patch(blocks, changed[0], after), changed[1..], after)
  }

  function AsMap(chunks: seq<seq<byte>>): map<nat, seq<byte>> {
    map i: nat | i < |chunks| :: chunks[i]
  }

  /** No two compared chunks collide. */
  ghost predicate NoChunkCollision(sha: Hasher, before: seq<seq<byte>>, after: seq<seq<byte>>) {
    forall i | 0 <= i < |before| && i < |after| :: sha(before[i]) == sha(after[i]) ==> before[i] == after[i]
  }

  lemma PatchOne(blocks: map<nat, seq<byte>>, b: BlockDiff, after: seq<seq<byte>>, i: nat)
    requires b.status != Deleted ==> b.index < |after|
    ensures var r := Patch(blocks, b, after);
      if b.index != i then (i in r <==> i in blocks) && (i in r ==> r[i] == blocks[i])
      else if b.status == Deleted then i !in r
      else i in r && r[i] == after[i]
  {
  }

  lemma {:induction false} PatchEffect(
    blocks: map<nat, seq<byte>>, changed: seq<BlockDiff>, after: seq<seq<byte>>, i: nat)
    requires forall b | b in changed :: b.status != Deleted ==> b.index < |after|
    requires forall j, k | 0 <= j < k < |changed| :: changed[j].index < changed[k].index
    ensures var r := PatchAll(blocks, changed, after);
      && ((exists b :: b in changed && b.index == i && b.status != Deleted) ==>
          i < |after| && i in r && r[i] == after[i])
      && ((exists b :: b in changed && b.index == i && b.status == Deleted) ==> i !in r)
      && ((forall b | b in changed :: b.index != i) ==> (i in r <==> i in blocks) && (i in r ==> r[i] == blocks[i]))
    decreases |changed|
  {
    hide Patch;
    if changed != [] {
      var first, rest := changed[0], changed[1..];
      PatchOne(blocks, first, after, i);
      LaterIndices(changed);
      assert forall b :: b in changed <==> b == first || b in rest;
      PatchEffect(Patch(blocks, first, after), rest, after, i);
    }
  }

  lemma LaterIndices(changed: seq<BlockDiff>)
    requires changed != [] && forall j, k | 0 <= j < k < |changed| :: changed[j].index < changed[k].index
    ensures forall b | b in changed[1..] :: b.index > changed[0].index
  {
    forall b | b in changed[1..]
      ensures b.index > changed[0].index
    {
      var k :| 0 <= k < |changed| - 1 && changed[1..][k] == b;
      assert changed[k + 1] == b;
    }
  }

  /**
   * Patching the old file's blocks with the transferred ones and dropping the deleted ones
   * gives exactly the new file's blocks, if no compared hashes collide.
   */
  lemma DiffIsPatch(sha: Hasher, size: nat, older: seq<byte>, newer: seq<byte>)
    requires size > 0
    requires NoChunkCollision(sha, Pieces(older, size), Pieces(newer, size))
    requires sha(older) == sha(newer) ==> older == newer
    ensures DiffOf(sha, size, ManifestOf(sha, size, older), newer).Ok?
    ensures var changed := DiffOf(sha, size, ManifestOf(sha, size, older), newer).value.changed;
      && (forall b | b in changed :: b.status != Deleted ==> b.index < |Pieces(newer, size)|)
      && PatchAll(AsMap(Pieces(older, size)), changed, Pieces(newer, size)) == AsMap(Pieces(newer, size))
  {
    var a, b := Pieces(older, size), Pieces(newer, size);
    if sha(older) != sha(newer) {
      ChunkPatch(sha, size, a, b);
    }
  }

  lemma MetasHash(sha: Hasher, size: nat, chunks: seq<seq<byte>>)
    ensures |MetasOf(sha, size, chunks)| == |chunks|
    ensures forall i | 0 <= i < |chunks| :: MetasOf(sha, size, chunks)[i].hash == sha(chunks[i])
  {
  }

  lemma ChunkPatch(sha: Hasher, size: nat, a: seq<seq<byte>>, b: seq<seq<byte>>)
    requires NoChunkCollision(sha, a, b)
    ensures var changed := Changes(sha, MetasOf(sha, size, a), size, b, Max(|a|, |b|));
      && (forall x | x in changed :: x.status != Deleted ==> x.index < |b|)
      && PatchAll(AsMap(a), changed, b) == AsMap(b)
  {
    hide Changes, PatchAll, MetasOf;
    var metas, n := MetasOf(sha, size, a), Max(|a|, |b|);
    MetasHash(sha, size, a);
    var changed := Changes(sha, metas, size, b, n);
    ChangesShape(sha, metas, size, b, n);
    var r := PatchAll(AsMap(a), changed, b);
    forall i: nat
      ensures i in r <==> i < |b|
      ensures i in r ==> r[i] == b[i]
    {
      PatchEffect(AsMap(a), changed, b, i);
      if i < n && BlockChange(sha, metas, size, b, i).Some? {
        var x := BlockChange(sha, metas, size, b, i).value;
        assert x in changed && x.index == i;
      }
    }
    assert r == AsMap(b);
  }
}
