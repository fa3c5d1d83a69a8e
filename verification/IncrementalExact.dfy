/** Incremental transfer is exact (src/storage/incremental.rs). */
module IncrementalExact {
  import opened Wrappers
  import opened Identity
  import opened Slicing
  import opened Chunk
  import opened Diff
  import opened Incremental

  /** The remote holds a file: its manifest and, at least, all its blocks. */
  ghost predicate Holds(sha: Hasher, size: nat, f: RemoteFile, data: seq<byte>)
    requires size > 0
  {
    && f.manifest == Some(ManifestOf(sha, size, data))
    && forall i: nat | i < |Pieces(data, size)| :: i in f.blocks && f.blocks[i] == Pieces(data, size)[i]
  }

  // ---------------------------------------------------------------------
  //  Download
  // ---------------------------------------------------------------------

  /**
   * From a remote that holds a file, with any local copy, the download gives exactly that
   * file and fetches exactly the blocks the local copy lacks or has differently, if no
   * compared hashes collide.
   */
  lemma DownloadIsExact(sha: Hasher, size: nat, f: RemoteFile, data: seq<byte>, local: Option<seq<byte>>)
    requires size > 0 && Holds(sha, size, f, data)
    requires NoChunkCollision(sha, LocalChunks(size, local), Pieces(data, size))
    ensures var r, mine, chunks := DownloadOf(sha, size, f, local), LocalChunks(size, local), Pieces(data, size);
      && r.Ok? && r.value.1 == data
      && var wanted := Needed(sha, f.manifest.value, mine, |chunks|);
      && (forall i: nat :: i in wanted <==> i < |chunks| && !(i < |mine| && mine[i] == chunks[i]))
      && r.value.0.transferred == |wanted|
      && (r.value.0.alreadyInSync <==> |mine| >= |chunks| && forall i: nat | i < |chunks| :: mine[i] == chunks[i])
  {
    var mine, chunks := LocalChunks(size, local), Pieces(data, size);
    WantedBlocks(sha, size, data, mine);
    AssembledIsFile(sha, size, data, mine, f.blocks);
    ReassembleOfChunks(sha, size, data);
  }

  lemma WantedBlocks(sha: Hasher, size: nat, data: seq<byte>, mine: seq<seq<byte>>)
    requires size > 0 && NoChunkCollision(sha, mine, Pieces(data, size))
    ensures var chunks := Pieces(data, size);
      var wanted := Needed(sha, ManifestOf(sha, size, data), mine, |chunks|);
      && (forall i: nat :: i in wanted <==> i < |chunks| && !(i < |mine| && mine[i] == chunks[i]))
      && (wanted == [] <==> |mine| >= |chunks| && forall i: nat | i < |chunks| :: mine[i] == chunks[i])
  {
    hide Pieces, Needed;
    var chunks, m := Pieces(data, size), ManifestOf(sha, size, data);
    var wanted := Needed(sha, m, mine, |chunks|);
    NeededIsExact(sha, m, mine, |chunks|);
    assert forall i: nat | i < |chunks| :: m.chunks[i].hash == sha(chunks[i]);
    assert |mine| < |chunks| ==> |mine| in wanted;
    if wanted != [] {
      assert wanted[0] in wanted;
    }
  }

  lemma AssembledIsFile(sha: Hasher, size: nat, data: seq<byte>, mine: seq<seq<byte>>, blocks: Blocks)
    requires size > 0 && NoChunkCollision(sha, mine, Pieces(data, size))
    requires forall i: nat | i < |Pieces(data, size)| :: i in blocks && blocks[i] == Pieces(data, size)[i]
    ensures var m := ManifestOf(sha, size, data);
      Serves(blocks, Needed(sha, m, mine, |m.chunks|)) && Assembled(sha, m, mine, blocks) == Pieces(data, size)
  {
    var m := ManifestOf(sha, size, data);
    NeededIsExact(sha, m, mine, |m.chunks|);
  }

  /**
   * A file that was put there in chunks of another size comes back all the same to whoever has no
   * copy of it; with a local copy, right or wrong, the download is refused.
   */
  lemma OtherChunkSize(sha: Hasher, size: nat, k: nat, f: RemoteFile, data: seq<byte>, local: Option<seq<byte>>)
    requires size > 0 && k > 0 && Holds(sha, k, f, data)
    ensures local == None ==> DownloadOf(sha, size, f, local).Ok? && DownloadOf(sha, size, f, local).value.1 == data
    ensures local.Some? && k != size ==> DownloadOf(sha, size, f, local) == Err(DiffFailed)
  {
    AssembledIsFile(sha, k, data, [], f.blocks);
    ReassembleOfChunks(sha, k, data);
  }

  /** Exactly when a download over a link that never fails comes to which error. */
  lemma DownloadErrors(sha: Hasher, size: nat, f: RemoteFile, local: Option<seq<byte>>)
    requires size > 0
    ensures var m, mine, r := ServedManifest(f, size), LocalChunks(size, local), DownloadOf(sha, size, f, local);
      var served := forall i: nat | i < |m.chunks| && !Have(sha, m, mine, i) :: i in f.blocks;
      && (r == Err(DiffFailed) <==> local.Some? && m.chunkSize != size)
      && (r == Err(NoSuchBlock) <==> !(local.Some? && m.chunkSize != size) && !served)
      && r != Err(LinkDown) && r != Err(MissingBlock)
      && (forall e :: r == Err(ReassemblyFailed(e)) <==>
        && !(local.Some? && m.chunkSize != size) && served
        && Serves(f.blocks, Needed(sha, m, mine, |m.chunks|))
        && Reassembled(sha, m, Assembled(sha, m, mine, f.blocks)) == Err(e))
  {
    var m, mine := ServedManifest(f, size), LocalChunks(size, local);
    NeededIsExact(sha, m, mine, |m.chunks|);
    assert Serves(f.blocks, Needed(sha, m, mine, |m.chunks|)) <==>
      forall i: nat | i < |m.chunks| && !Have(sha, m, mine, i) :: i in f.blocks;
  }

  /** Whatever a remote serves, a file that is handed back has the hash its manifest promised. */
  lemma DownloadNeverMisleads(sha: Hasher, size: nat, f: RemoteFile, local: Option<seq<byte>>)
    requires size > 0 && DownloadOf(sha, size, f, local).Ok?
    ensures sha(DownloadOf(sha, size, f, local).value.1) == ServedManifest(f, size).fileHash
  {
  }

  /** The bytes among the first n blocks that the local copy already has. */
  function OwnBytes(mine: seq<seq<byte>>, chunks: seq<seq<byte>>, n: nat): nat {
    if n == 0 then 0
    else
      OwnBytes(mine, chunks, n - 1) +
      (if n - 1 < |mine| && n - 1 < |chunks| && mine[n - 1] == chunks[n - 1] then |chunks[n - 1]| else 0)
  }

  lemma {:induction false} FetchedAndOwn(
      sha: Hasher, size: nat, data: seq<byte>, mine: seq<seq<byte>>, blocks: Blocks, n: nat)
    requires size > 0 && NoChunkCollision(sha, mine, Pieces(data, size)) && n <= |Pieces(data, size)|
    requires forall i: nat | i < |Pieces(data, size)| :: i in blocks && blocks[i] == Pieces(data, size)[i]
    ensures var wanted := Needed(sha, ManifestOf(sha, size, data), mine, n);
      && Serves(blocks, wanted)
      && LengthOf(blocks, wanted) + OwnBytes(mine, Pieces(data, size), n) == TotalLength(Pieces(data, size)[..n])
  {
    hide Pieces;
    var m, chunks := ManifestOf(sha, size, data), Pieces(data, size);
    NeededIsExact(sha, m, mine, n);
    if n > 0 {
      FetchedAndOwn(sha, size, data, mine, blocks, n - 1);
      OneMorePiece(chunks, n);
      var init, wanted := Needed(sha, m, mine, n - 1), Needed(sha, m, mine, n);
      assert m.chunks[n - 1].hash == sha(chunks[n - 1]);
      if Have(sha, m, mine, n - 1) {
        assert wanted == init;
      } else {
        assert wanted == init + [n - 1] && wanted[..|wanted| - 1] == init;
      }
    }
  }

  /** The reported count and bytes of a download: what it fetched and what it had make up the file. */
  lemma DownloadAccounts(sha: Hasher, size: nat, f: RemoteFile, data: seq<byte>, local: Option<seq<byte>>)
    requires size > 0 && Holds(sha, size, f, data)
    requires NoChunkCollision(sha, LocalChunks(size, local), Pieces(data, size))
    ensures var r, mine, chunks := DownloadOf(sha, size, f, local), LocalChunks(size, local), Pieces(data, size);
      && r.Ok? && r.value.0.total == |chunks|
      && r.value.0.bytes + OwnBytes(mine, chunks, |chunks|) == |data|
  {
    var mine, chunks := LocalChunks(size, local), Pieces(data, size);
    DownloadIsExact(sha, size, f, data, local);
    FetchedAndOwn(sha, size, data, mine, f.blocks, |chunks|);
    assert chunks[..|chunks|] == chunks;
    TotalLengthOfConcat(chunks);
    ConcatOfPieces(data, size);
  }

  // ---------------------------------------------------------------------
  //  Upload
  // ---------------------------------------------------------------------

  lemma {:induction false} SentBytes(changed: seq<BlockDiff>, chunks: seq<seq<byte>>)
    requires InRange(changed, |chunks|)
    requires forall b | b in changed && b.status != Deleted :: b.size == |chunks[b.index]|
    ensures BytesOf(changed, chunks) == Bytes(Transferred(changed))
  {
    hide Bytes, Transferred;
    if changed == [] {
      NothingTransferred();
    } else {
      var n := |changed| - 1;
      SentBytes(changed[..n], chunks);
      TransferredSnoc(changed[..n], changed[n]);
      assert changed == changed[..n] + [changed[n]];
    }
  }

  lemma NothingTransferred()
    ensures Bytes(Transferred([])) == 0
  {
  }

  /** The bytes an upload reports, with those it may leave alone, make up the file. */
  lemma UploadAccounts(sha: Hasher, size: nat, m: FileManifest, data: seq<byte>)
    requires size > 0 && DiffOf(sha, size, m, data).Ok?
    ensures var d, chunks := DiffOf(sha, size, m, data).value, Pieces(data, size);
      && InRange(d.changed, |chunks|)
      && BytesOf(d.changed, chunks) ==
        if sha(data) == m.fileHash then 0
        else |data| - KeptBytes(sha, m.chunks, chunks, Max(|m.chunks|, |chunks|))
  {
    var chunks := Pieces(data, size);
    DiffAccounts(sha, size, m, data);
    ChangesInRange(sha, size, m, data);
    ChangesShape(sha, m.chunks, size, chunks, Max(|m.chunks|, |chunks|));
    SentBytes(DiffOf(sha, size, m, data).value.changed, chunks);
    NothingTransferred();
  }

  lemma {:induction false} SentEffect(blocks: Blocks, changed: seq<BlockDiff>, chunks: seq<seq<byte>>, i: nat)
    requires InRange(changed, |chunks|)
    ensures var r := Sent(blocks, changed, chunks);
      if exists b :: b in changed && b.index == i && b.status != Deleted
        then i in r && i < |chunks| && r[i] == chunks[i]
        else (i in r <==> i in blocks) && (i in r ==> r[i] == blocks[i])
  {
    if changed != [] {
      var n := |changed| - 1;
      SentEffect(blocks, changed[..n], chunks, i);
      assert changed == changed[..n] + [changed[n]];
    }
  }

  /** The state a successful upload leaves behind. */
  function Uploaded(sha: Hasher, size: nat, f: RemoteFile, data: seq<byte>): RemoteFile
    requires size > 0 && DiffOf(sha, size, ServedManifest(f, size), data).Ok?
  {
    ChangesInRange(sha, size, ServedManifest(f, size), data);
    RemoteFile(Some(ManifestOf(sha, size, data)),
               Sent(f.blocks, DiffOf(sha, size, ServedManifest(f, size), data).value.changed, Pieces(data, size)))
  }

  /** The upload leaves block i alone: the served manifest already shows its hash. */
  predicate Skipped(sha: Hasher, m: FileManifest, data: seq<byte>, chunks: seq<seq<byte>>, i: nat)
    requires i < |chunks|
  {
    sha(data) == m.fileHash || (i < |m.chunks| && m.chunks[i].hash == sha(chunks[i]))
  }

  lemma UploadEffect(sha: Hasher, size: nat, f: RemoteFile, data: seq<byte>, i: nat)
    requires size > 0 && DiffOf(sha, size, ServedManifest(f, size), data).Ok? && i < |Pieces(data, size)|
    ensures var r, chunks := Uploaded(sha, size, f, data).blocks, Pieces(data, size);
      if Skipped(sha, ServedManifest(f, size), data, chunks, i)
        then (i in r <==> i in f.blocks) && (i in r ==> r[i] == f.blocks[i])
        else i in r && r[i] == chunks[i]
  {
    hide Pieces, Sent;
    var m, chunks := ServedManifest(f, size), Pieces(data, size);
    var changed := DiffOf(sha, size, m, data).value.changed;
    ChangesInRange(sha, size, m, data);
    SentEffect(f.blocks, changed, chunks, i);
    if sha(data) != m.fileHash {
      ChangesShape(sha, m.chunks, size, chunks, Max(|m.chunks|, |chunks|));
      var c := BlockChange(sha, m.chunks, size, chunks, i);
      if c.Some? {
        assert c.value in changed && c.value.index == i;
      }
    }
  }

  /**
   * For any remote state, whatever its manifest and blocks: a successful upload leaves the
   * remote holding the file exactly if every block it skipped was already right there.  (An
   * earlier upload that broke off half-way is what can make a skipped block wrong.)
   */
  lemma UploadHoldsIffSkippedBlocksWereRight(sha: Hasher, size: nat, f: RemoteFile, data: seq<byte>)
    requires size > 0 && DiffOf(sha, size, ServedManifest(f, size), data).Ok?
    ensures var chunks := Pieces(data, size);
      Holds(sha, size, Uploaded(sha, size, f, data), data) <==>
        forall i: nat | i < |chunks| && Skipped(sha, ServedManifest(f, size), data, chunks, i) ::
          i in f.blocks && f.blocks[i] == chunks[i]
  {
    forall i: nat | i < |Pieces(data, size)|
      ensures var r, chunks := Uploaded(sha, size, f, data).blocks, Pieces(data, size);
        if Skipped(sha, ServedManifest(f, size), data, chunks, i)
          then (i in r <==> i in f.blocks) && (i in r ==> r[i] == f.blocks[i])
          else i in r && r[i] == chunks[i]
    {
      UploadEffect(sha, size, f, data, i);
    }
  }

  /** Replacing one held file by another: the remote then holds the new one. */
  lemma UploadReplacesFile(sha: Hasher, size: nat, f: RemoteFile, older: seq<byte>, newer: seq<byte>)
    requires size > 0 && Holds(sha, size, f, older)
    requires NoChunkCollision(sha, Pieces(older, size), Pieces(newer, size))
    requires sha(older) == sha(newer) ==> older == newer
    ensures DiffOf(sha, size, ServedManifest(f, size), newer).Ok?
    ensures Holds(sha, size, Uploaded(sha, size, f, newer), newer)
  {
    UploadHoldsIffSkippedBlocksWereRight(sha, size, f, newer);
  }

  /** The first upload of a file to a remote without it. */
  lemma FirstUpload(sha: Hasher, size: nat, f: RemoteFile, data: seq<byte>)
    requires size > 0 && f.manifest == None && sha(data) != ZERO_ID
    ensures Holds(sha, size, Uploaded(sha, size, f, data), data)
  {
    UploadHoldsIffSkippedBlocksWereRight(sha, size, f, data);
  }

  /** Upload, then download anywhere: the file comes back. */
  lemma UploadThenDownload(
      sha: Hasher, size: nat, f: RemoteFile, older: seq<byte>, newer: seq<byte>, local: Option<seq<byte>>)
    requires size > 0 && Holds(sha, size, f, older)
    requires NoChunkCollision(sha, Pieces(older, size), Pieces(newer, size))
    requires sha(older) == sha(newer) ==> older == newer
    requires NoChunkCollision(sha, LocalChunks(size, local), Pieces(newer, size))
    ensures var r := DownloadOf(sha, size, Uploaded(sha, size, f, newer), local);
      r.Ok? && r.value.1 == newer
  {
    UploadReplacesFile(sha, size, f, older, newer);
    DownloadIsExact(sha, size, Uploaded(sha, size, f, newer), newer, local);
  }

  /** Every block the upload leaves alone is already right on the remote. */
  ghost predicate SkippedBlocksAreRight(sha: Hasher, size: nat, f: RemoteFile, data: seq<byte>)
    requires size > 0
  {
    var chunks := Pieces(data, size);
    forall i: nat | i < |chunks| && Skipped(sha, ServedManifest(f, size), data, chunks, i) ::
      i in f.blocks && f.blocks[i] == chunks[i]
  }

  /**
   * When a reported success means what it says: the remote then holds the file exactly if
   * the hash was remembered and the remote held the file already, or it was not and every
   * block the upload left alone was right.
   */
  method UploadChecked(sync: IncrementalSync, remote: Remote, name: string, data: seq<byte>, now: nat)
    returns (r: Result<SyncResult, SyncError>)
    requires sync.Valid()
    modifies sync`entries, remote`calls, remote`files
    ensures r.Ok? ==>
      var f := FileOf(old(remote.files), name);
      Holds(sync.sha, sync.size, FileOf(remote.files, name), data) <==>
        if Remembered(old(sync.entries), name, sync.sha(data)) then Holds(sync.sha, sync.size, f, data)
        else SkippedBlocksAreRight(sync.sha, sync.size, f, data)
  {
    ghost var f := FileOf(remote.files, name);
    ghost var remembered := Remembered(sync.entries, name, sync.sha(data));
    r := sync.SyncFile(remote, name, data, now);
    if r.Ok? && !remembered {
      UploadHoldsIffSkippedBlocksWereRight(sync.sha, sync.size, f, data);
    }
  }

  /**
   * Two versions of a file uploaded one after the other over a perfect link: the second is not
   * taken for the first, and the remote ends up holding it.
   */
  method UploadBothVersions(sha: Hasher, name: string, older: seq<byte>, newer: seq<byte>, now: nat)
    returns (first: Result<SyncResult, SyncError>, second: Result<SyncResult, SyncError>, left: map<string, RemoteFile>)
    requires sha(older) != ZERO_ID && sha(older) != sha(newer)
    requires NoChunkCollision(sha, Pieces(older, MIN_DIFF_CHUNK_SIZE), Pieces(newer, MIN_DIFF_CHUNK_SIZE))
    ensures first.Ok? && second.Ok? && !first.value.alreadyInSync && !second.value.alreadyInSync
    ensures Holds(sha, MIN_DIFF_CHUNK_SIZE, FileOf(left, name), newer)
  {
    var sync := new IncrementalSync(MIN_DIFF_CHUNK_SIZE, sha);
    var remote := new Remote(_ => true);
    first := sync.SyncFile(remote, name, older, now);
    FirstUpload(sha, MIN_DIFF_CHUNK_SIZE, RemoteFile(None, map[]), older);
    ghost var f := FileOf(remote.files, name);
    assert Holds(sha, MIN_DIFF_CHUNK_SIZE, f, older);
    second := sync.SyncFile(remote, name, newer, now);
    UploadReplacesFile(sha, MIN_DIFF_CHUNK_SIZE, f, older, newer);
    left := remote.files;
  }

  /**
   * The memory of past uploads is kept by file name only: once a file went to one remote,
   * uploading it to another reports success and sends nothing.
   */
  method UploadToSecondRemote(sync: IncrementalSync, a: Remote, b: Remote, name: string, data: seq<byte>, now: nat)
    returns (first: Result<SyncResult, SyncError>, second: Result<SyncResult, SyncError>)
    requires sync.Valid() && a != b
    modifies sync`entries, a`calls, a`files, b`calls, b`files
    ensures first.Ok? ==>
      second == Ok(SyncResult(|Pieces(data, sync.size)|, 0, 0, true)) && b.files == old(b.files)
    ensures Remembered(old(sync.entries), name, sync.sha(data)) ==> first.Ok?
    ensures !Remembered(old(sync.entries), name, sync.sha(data)) && (forall k :: a.up(k)) ==>
      (first.Ok? <==>
        DiffOf(sync.sha, sync.size, ServedManifest(FileOf(old(a.files), name), sync.size), data).Ok?)
  {
    first := sync.SyncFile(a, name, data, now);
    second := sync.SyncFile(b, name, data, now);
  }

  /** On two fresh remotes and perfect links both uploads succeed, and the second remote has nothing. */
  method SecondRemoteStaysEmpty(sha: Hasher, name: string, data: seq<byte>, now: nat)
    returns (first: Result<SyncResult, SyncError>, second: Result<SyncResult, SyncError>, left: map<string, RemoteFile>)
    ensures first.Ok? && second.Ok? && left == map[]
    ensures !Holds(sha, MIN_DIFF_CHUNK_SIZE, FileOf(left, name), data)
  {
    var sync := new IncrementalSync(MIN_DIFF_CHUNK_SIZE, sha);
    var a := new Remote(_ => true);
    var b := new Remote(_ => true);
    first, second := UploadToSecondRemote(sync, a, b, name, data, now);
    left := b.files;
  }
}
