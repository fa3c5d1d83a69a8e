/**
 * Incremental upload and download (src/storage/incremental.rs).
 *
 * The remote node is a table of files, each a manifest and a block map.  Every network
 * call may fail (`up` tells which calls succeed); one that succeeds has taken effect.
 * Local files are passed in and handed back; the clock is a parameter.
 */
module Incremental {
  import opened Wrappers
  import opened Identity
  import opened Slicing
  import opened Chunk
  import opened Diff

  type Blocks = map<nat, seq<byte>>

  datatype RemoteFile = RemoteFile(manifest: Option<FileManifest>, blocks: Blocks)

  datatype SyncError = LinkDown | NoSuchBlock | DiffFailed | MissingBlock | ReassemblyFailed(e: ReassembleError)

  datatype SyncResult = SyncResult(total: nat, transferred: nat, bytes: nat, alreadyInSync: bool)

  datatype SyncEntry = SyncEntry(hash: Hash, at: nat, size: nat)

  /** Nothing stored under a name is an empty file record. */
  function FileOf(files: map<string, RemoteFile>, name: string): RemoteFile {
    if name in files then files[name] else RemoteFile(None, map[])
  }

  /** A remote without the file answers with an empty manifest of the asker's chunk size. */
  function ServedManifest(f: RemoteFile, size: nat): FileManifest {
    if f.manifest.Some? then f.manifest.value else FileManifest(ZERO_ID, 0, [], size)
  }

  class Remote {
    var files: map<string, RemoteFile>
    const up: nat -> bool
    var calls: nat
    /** The blocks handed out, oldest first. */
    var served: seq<nat>

    constructor (up: nat -> bool)
      ensures files == map[] && served == [] && this.up == up
    {
      this.up := up;
      files, calls, served := map[], 0, [];
    }

    method GetManifest(name: string, size: nat) returns (r: Result<FileManifest, SyncError>)
      modifies this`calls
      ensures r == if up(old(calls)) then Ok(ServedManifest(FileOf(files, name), size)) else Err(LinkDown)
    {
      calls := calls + 1;
      if !up(calls - 1) {
        return Err(LinkDown);
      }
      return Ok(ServedManifest(FileOf(files, name), size));
    }

    method GetBlock(name: string, i: nat) returns (r: Result<seq<byte>, SyncError>)
      modifies this`calls, this`served
      ensures r == if !up(old(calls)) then Err(LinkDown)
        else if i in FileOf(files, name).blocks then Ok(FileOf(files, name).blocks[i]) else Err(NoSuchBlock)
      ensures served == if r.Ok? then old(served) + [i] else old(served)
    {
      calls := calls + 1;
      if !up(calls - 1) {
        return Err(LinkDown);
      }
      var blocks := FileOf(files, name).blocks;
      if i !in blocks {
        return Err(NoSuchBlock);
      }
      served := served + [i];
      return Ok(blocks[i]);
    }

    method PutBlock(name: string, i: nat, data: seq<byte>) returns (ok: bool)
      modifies this`calls, this`files
      ensures ok == up(old(calls))
      ensures var f := FileOf(old(files), name);
        files == if ok then old(files)[name := f.(blocks := f.blocks[i := data])] else old(files)
    {
      calls := calls + 1;
      ok := up(calls - 1);
      if ok {
        var f := FileOf(files, name);
        files := files[name := f.(blocks := f.blocks[i := data])];
      }
    }

    method PutManifest(name: string, m: FileManifest) returns (ok: bool)
      modifies this`calls, this`files
      ensures ok == up(old(calls))
      ensures files == if ok then old(files)[name := FileOf(old(files), name).(manifest := Some(m))] else old(files)
    {
      calls := calls + 1;
      ok := up(calls - 1);
      if ok {
        files := files[name := FileOf(files, name).(manifest := Some(m))];
      }
    }
  }

  // ---------------------------------------------------------------------
  //  Download
  // ---------------------------------------------------------------------

  /** The local copy has block i as the manifest wants it. */
  predicate Have(sha: Hasher, m: FileManifest, local: seq<seq<byte>>, i: nat) {
    i < |m.chunks| && i < |local| && m.chunks[i].hash == sha(local[i])
  }

  /** The blocks among the first n that have to be fetched, in order. */
  function Needed(sha: Hasher, m: FileManifest, local: seq<seq<byte>>, n: nat): seq<nat> {
    if n == 0 then []
    else Needed(sha, m, local, n - 1) + (if Have(sha, m, local, n - 1) then [] else [n - 1])
  }

  predicate Serves(blocks: Blocks, wanted: seq<nat>) { forall i | i in wanted :: i in blocks }

  ghost predicate Ascending(s: seq<nat>) {
    forall i, j | 0 <= i < j < |s| :: s[i] < s[j]
  }

  /** A block is asked for exactly when the local one is missing or has another hash. */
  lemma {:induction false} NeededIsExact(sha: Hasher, m: FileManifest, local: seq<seq<byte>>, n: nat)
    ensures forall i: nat :: i in Needed(sha, m, local, n) <==> i < n && !Have(sha, m, local, i)
    ensures Ascending(Needed(sha, m, local, n))
  {
    if n > 0 {
      NeededIsExact(sha, m, local, n - 1);
      var init := Needed(sha, m, local, n - 1);
      forall k | 0 <= k < |init|
        ensures init[k] < n - 1
      {
        assert init[k] in init;
      }
    }
  }

  /** The given blocks with the wanted ones taken from another store. */
  function Merged(have: Blocks, source: Blocks, wanted: seq<nat>): Blocks
    requires Serves(source, wanted)
  {
    if wanted == [] then have
    else
      var last := wanted[|wanted| - 1];
      Merged(have, source, wanted[..|wanted| - 1])[last := source[last]]
  }

  lemma {:induction false} MergedEffect(have: Blocks, source: Blocks, wanted: seq<nat>)
    requires Serves(source, wanted)
    ensures var r := Merged(have, source, wanted);
      forall i ::
        (i in r <==> i in have || i in wanted) && (i in r ==> r[i] == if i in wanted then source[i] else have[i])
  {
    if wanted != [] {
      var n := |wanted| - 1;
      MergedEffect(have, source, wanted[..n]);
      assert wanted == wanted[..n] + [wanted[n]];
    }
  }

  /** Own blocks where they match, fetched ones elsewhere. */
  function Assembled(sha: Hasher, m: FileManifest, local: seq<seq<byte>>, blocks: Blocks): seq<seq<byte>>
    requires Serves(blocks, Needed(sha, m, local, |m.chunks|))
  {
    NeededIsExact(sha, m, local, |m.chunks|);
    seq(|m.chunks|, i requires 0 <= i < |m.chunks| => if Have(sha, m, local, i) then local[i] else blocks[i])
  }

  function LengthOf(blocks: Blocks, wanted: seq<nat>): nat
    requires Serves(blocks, wanted)
  {
    if wanted == [] then 0 else LengthOf(blocks, wanted[..|wanted| - 1]) + |blocks[wanted[|wanted| - 1]]|
  }

  function LocalChunks(size: nat, local: Option<seq<byte>>): seq<seq<byte>>
    requires size > 0
  {
    if local.Some? then Pieces(local.value, size) else []
  }

  /** The file put together from own and remote blocks, by the manifest. */
  function RestoreOf(sha: Hasher, m: FileManifest, mine: seq<seq<byte>>, blocks: Blocks)
    : Result<(SyncResult, seq<byte>), SyncError>
  {
    var wanted := Needed(sha, m, mine, |m.chunks|);
    if !Serves(blocks, wanted) then Err(NoSuchBlock)
    else
      match Reassembled(sha, m, Assembled(sha, m, mine, blocks))
      case Ok(data) => Ok((SyncResult(|m.chunks|, |wanted|, LengthOf(blocks, wanted), wanted == []), data))
      case Err(e) => Err(ReassemblyFailed(e))
  }

  /** The outcome of a download over a link that never fails. */
  function DownloadOf(sha: Hasher, size: nat, f: RemoteFile, local: Option<seq<byte>>)
    : Result<(SyncResult, seq<byte>), SyncError>
    requires size > 0
  {
    var m := ServedManifest(f, size);
    if local.Some? && m.chunkSize != size then Err(DiffFailed)
    else RestoreOf(sha, m, LocalChunks(size, local), f.blocks)
  }

  // ---------------------------------------------------------------------
  //  Upload
  // ---------------------------------------------------------------------

  predicate InRange(changed: seq<BlockDiff>, n: nat) {
    forall b | b in changed :: b.status != Deleted ==> b.index < n
  }

  /** The remote's blocks after the transferred blocks of these changes arrived. */
  function Sent(blocks: Blocks, changed: seq<BlockDiff>, chunks: seq<seq<byte>>): Blocks
    requires InRange(changed, |chunks|)
  {
    if changed == [] then blocks
    else
      var last := changed[|changed| - 1];
      var before := Sent(blocks, changed[..|changed| - 1], chunks);
      if last.status == Deleted then before else before[last.index := chunks[last.index]]
  }

  function BytesOf(changed: seq<BlockDiff>, chunks: seq<seq<byte>>): nat
    requires InRange(changed, |chunks|)
  {
    if changed == [] then 0
    else
      var last := changed[|changed| - 1];
      BytesOf(changed[..|changed| - 1], chunks) + (if last.status == Deleted then 0 else |chunks[last.index]|)
  }

  lemma ChangesInRange(sha: Hasher, size: nat, m: FileManifest, data: seq<byte>)
    requires size > 0 && DiffOf(sha, size, m, data).Ok?
    ensures InRange(DiffOf(sha, size, m, data).value.changed, |Pieces(data, size)|)
  {
    var local := Pieces(data, size);
    ChangesShape(sha, m.chunks, size, local, Max(|m.chunks|, |local|));
  }

  /** Own and fetched blocks together are the assembled file. */
  lemma MergedIsComplete(sha: Hasher, m: FileManifest, local: seq<seq<byte>>, have: Blocks, source: Blocks)
    requires forall i: nat :: i in have <==> Have(sha, m, local, i)
    requires forall i | i in have :: i < |local| && have[i] == local[i]
    requires Serves(source, Needed(sha, m, local, |m.chunks|))
    ensures var r := Merged(have, source, Needed(sha, m, local, |m.chunks|));
      var whole := Assembled(sha, m, local, source);
      forall i: nat | i < |m.chunks| :: i in r && r[i] == whole[i]
  {
    NeededIsExact(sha, m, local, |m.chunks|);
    MergedEffect(have, source, Needed(sha, m, local, |m.chunks|));
  }

  /** The file was last synchronised with this hash, whatever the remote was. */
  predicate Remembered(entries: map<string, SyncEntry>, name: string, hash: Hash) {
    name in entries && entries[name].hash == hash
  }

  class IncrementalSync {
    const size: nat
    const sha: Hasher
    const chunker: Chunker
    const engine: BlockDiffEngine
    var entries: map<string, SyncEntry>

    ghost predicate Valid() {
      size > 0 && chunker.chunkSize == engine.chunkSize == size && chunker.sha == engine.sha == sha
    }

    constructor (chunkSize: nat, sha: Hasher)
      ensures Valid() && entries == map[] && this.sha == sha && size == Max(chunkSize, MIN_DIFF_CHUNK_SIZE)
    {
      var cs := if chunkSize >= MIN_DIFF_CHUNK_SIZE then chunkSize else MIN_DIFF_CHUNK_SIZE;
      var c := new Chunker(cs, sha);
      var e := new BlockDiffEngine(cs, sha);
      this.size, this.sha, this.chunker, this.engine, entries := cs, sha, c, e, map[];
    }

    /** The blocks of the local copy that match the manifest, by index. */
    method OwnBlocks(m: FileManifest, chunks: seq<seq<byte>>) returns (have: Blocks)
      ensures forall i: nat :: i in have <==> Have(sha, m, chunks, i)
      ensures forall i | i in have :: i < |chunks| && have[i] == chunks[i]
    {
      have := map[];
      for i := 0 to |chunks|
        invariant forall k: nat :: k in have <==> k < i && Have(sha, m, chunks, k)
        invariant forall k | k in have :: k < |chunks| && have[k] == chunks[k]
      {
        if i < |m.chunks| && m.chunks[i].hash == sha(chunks[i]) {
          have := have[i := chunks[i]];
        }
      }
    }

    method MissingBlocks(m: FileManifest, chunks: seq<seq<byte>>, have: Blocks) returns (need: seq<nat>)
      requires forall i: nat :: i in have <==> Have(sha, m, chunks, i)
      ensures need == Needed(sha, m, chunks, |m.chunks|)
    {
      need := [];
      for i := 0 to |m.chunks|
        invariant need == Needed(sha, m, chunks, i)
      {
        if i !in have {
          need := need + [i];
        }
      }
    }

    /** Fetches the wanted blocks in order and adds them to the given ones. */
    method Fetch(remote: Remote, path: string, need: seq<nat>, have: Blocks)
      returns (r: Result<(Blocks, nat), SyncError>)
      modifies remote`calls, remote`served
      ensures var source := FileOf(remote.files, path).blocks;
        && (r.Ok? ==> Serves(source, need) && r == Ok((Merged(have, source, need), LengthOf(source, need))))
        && (r.Ok? ==> remote.served == old(remote.served) + need)
        && ((forall k :: remote.up(k)) ==> r.Ok? || (r == Err(NoSuchBlock) && !Serves(source, need)))
    {
      ghost var source := FileOf(remote.files, path).blocks;
      var all, bytes := have, 0;
      for k := 0 to |need|
        invariant Serves(source, need[..k]) && bytes == LengthOf(source, need[..k])
        invariant all == Merged(have, source, need[..k])
        invariant remote.served == old(remote.served) + need[..k]
      {
        assert need[..k + 1][..k] == need[..k] && need[..k + 1][k] == need[k];
        var r := remote.GetBlock(path, need[k]);
        if r.Err? {
          return Err(r.error);
        }
        all := all[need[k] := r.value];
        bytes := bytes + |r.value|;
      }
      assert need[..|need|] == need;
      return Ok((all, bytes));
    }

    /** Lines the blocks up in index order. */
    method Order(total: nat, blocks: Blocks) returns (r: Result<seq<seq<byte>>, SyncError>)
      ensures r.Ok? <==> forall i: nat | i < total :: i in blocks
      ensures r.Ok? ==> |r.value| == total && forall i: nat | i < total :: r.value[i] == blocks[i]
    {
      var ordered: seq<seq<byte>> := [];
      for i := 0 to total
        invariant |ordered| == i && forall k: nat | k < i :: k in blocks && ordered[k] == blocks[k]
      {
        if i !in blocks {
          return Err(MissingBlock);
        }
        ordered := ordered + [blocks[i]];
      }
      return Ok(ordered);
    }

    /** Keep the matching blocks, fetch the others, line them up and verify. */
    method Restore(remote: Remote, path: string, m: FileManifest, chunks: seq<seq<byte>>)
      returns (r: Result<(SyncResult, seq<byte>), SyncError>)
      requires Valid()
      modifies remote`calls, remote`served
      ensures var source := FileOf(remote.files, path).blocks;
        && (r.Ok? ==> r == RestoreOf(sha, m, chunks, source))
        && (r.Ok? ==> remote.served == old(remote.served) + Needed(sha, m, chunks, |m.chunks|))
        && ((forall k :: remote.up(k)) ==> r == RestoreOf(sha, m, chunks, source))
    {
      ghost var source := FileOf(remote.files, path).blocks;
      var have := OwnBlocks(m, chunks);
      var need := MissingBlocks(m, chunks, have);
      var fetched := Fetch(remote, path, need, have);
      if fetched.Err? {
        return Err(fetched.error);
      }
      var (blocks, bytes) := fetched.value;
      MergedIsComplete(sha, m, chunks, have, source);
      var ordered := Order(|m.chunks|, blocks);
      assert ordered.Ok?;
      assert ordered.value == Assembled(sha, m, chunks, source);
      var restored := chunker.Reassemble(m, ordered.value);
      if restored.Err? {
        return Err(ReassemblyFailed(restored.error));
      }
      return Ok((SyncResult(|m.chunks|, |need|, bytes, |need| == 0), restored.value));
    }

    /**
     * On success the file is what DownloadOf says and exactly the needed blocks were asked
     * for, in order; over a link that never fails the outcome is DownloadOf in every case.
     */
    method DownloadFile(remote: Remote, path: string, name: string, local: Option<seq<byte>>, now: nat)
      returns (r: Result<(SyncResult, seq<byte>), SyncError>)
      requires Valid()
      modifies this`entries, remote`calls, remote`served
      ensures var f := FileOf(remote.files, path); var m := ServedManifest(f, size);
        && (r.Ok? ==>
              && r == DownloadOf(sha, size, f, local)
              && entries == old(entries)[name := SyncEntry(m.fileHash, now, m.fileSize)]
              && remote.served == old(remote.served) + Needed(sha, m, LocalChunks(size, local), |m.chunks|))
        && (r.Err? ==> entries == old(entries))
        && ((forall k :: remote.up(k)) ==> r == DownloadOf(sha, size, f, local))
    {
      var mr := remote.GetManifest(path, size);
      if mr.Err? {
        return Err(mr.error);
      }
      var m := mr.value;
      ghost var f := FileOf(remote.files, path);
      var chunks: seq<seq<byte>> := [];
      if local.Some? {
        var diff := engine.DiffFiles(m, local.value);
        if diff.Err? {
          return Err(DiffFailed);
        }
        var _, localChunks := chunker.ChunkData(local.value);
        chunks := localChunks;
      }
      r := Restore(remote, path, m, chunks);
      if r.Err? {
        return;
      }
      entries := entries[name := SyncEntry(m.fileHash, now, m.fileSize)];
    }

    /** Sends the added and modified blocks of a diff, in order, until a call fails. */
    method SendChanges(remote: Remote, name: string, changed: seq<BlockDiff>, chunks: seq<seq<byte>>)
      returns (ok: bool, count: nat, bytes: nat)
      requires InRange(changed, |chunks|)
      modifies remote`calls, remote`files
      ensures var f := FileOf(old(remote.files), name);
        && FileOf(remote.files, name).manifest == f.manifest
        && (forall other | other != name :: FileOf(remote.files, other) == FileOf(old(remote.files), other))
        && (ok ==> FileOf(remote.files, name).blocks == Sent(f.blocks, changed, chunks))
        && (ok ==> count == |Transferred(changed)| && bytes == BytesOf(changed, chunks))
      ensures (forall k :: remote.up(k)) ==> ok
    {
      ghost var f := FileOf(remote.files, name);
      count, bytes := 0, 0;
      for k := 0 to |changed|
        invariant InRange(changed[..k], |chunks|)
        invariant FileOf(remote.files, name) == RemoteFile(f.manifest, Sent(f.blocks, changed[..k], chunks))
        invariant forall other | other != name :: FileOf(remote.files, other) == FileOf(old(remote.files), other)
        invariant count == |Transferred(changed[..k])| && bytes == BytesOf(changed[..k], chunks)
      {
        var block := changed[k];
        assert changed[..k + 1] == changed[..k] + [block] && changed[..k + 1][..k] == changed[..k];
        TransferredAppend(changed[..k], block);
        if block.status == Added || block.status == Modified {
          var sent := remote.PutBlock(name, block.index, chunks[block.index]);
          if !sent {
            return false, count, bytes;
          }
          count := count + 1;
          bytes := bytes + |chunks[block.index]|;
        }
      }
      assert changed[..|changed|] == changed;
      return true, count, bytes;
    }

    /**
     * A remembered equal hash ends the upload at once.  Otherwise success leaves the remote
     * with the new manifest and its blocks overwritten by the transferred ones; a failure
     * leaves the old manifest, with some of the transfer done.  Other files are untouched.
     * Over a link that never fails, only a diff that cannot be made fails.
     */
    method SyncFile(remote: Remote, name: string, data: seq<byte>, now: nat) returns (r: Result<SyncResult, SyncError>)
      requires Valid()
      modifies this`entries, remote`calls, remote`files
      ensures Remembered(old(entries), name, sha(data)) ==>
        && r == Ok(SyncResult(|Pieces(data, size)|, 0, 0, true))
        && entries == old(entries) && remote.files == old(remote.files)
      ensures !Remembered(old(entries), name, sha(data)) && r.Ok? ==>
        var f := FileOf(old(remote.files), name);
        var diff, chunks := DiffOf(sha, size, ServedManifest(f, size), data), Pieces(data, size);
        && diff.Ok? && InRange(diff.value.changed, |chunks|)
        && r.value == SyncResult(|chunks|, |Transferred(diff.value.changed)|,
          BytesOf(diff.value.changed, chunks), false)
        && entries == old(entries)[name := SyncEntry(sha(data), now, |data|)]
        && FileOf(remote.files, name) ==
          RemoteFile(Some(ManifestOf(sha, size, data)), Sent(f.blocks, diff.value.changed, chunks))
      ensures !Remembered(old(entries), name, sha(data)) && (forall k :: remote.up(k)) ==>
        (r.Ok? <==> DiffOf(sha, size, ServedManifest(FileOf(old(remote.files), name), size), data).Ok?)
      ensures r.Err? ==>
        && entries == old(entries)
        && FileOf(remote.files, name).manifest == FileOf(old(remote.files), name).manifest
      ensures forall other | other != name :: FileOf(remote.files, other) == FileOf(old(remote.files), other)
    {
      var manifest, chunks := chunker.ChunkData(data);
      if name in entries && entries[name].hash == manifest.fileHash {
        return Ok(SyncResult(|manifest.chunks|, 0, 0, true));
      }
      var mr := remote.GetManifest(name, size);
      if mr.Err? {
        return Err(mr.error);
      }
      var diff := engine.DiffFiles(mr.value, data);
      if diff.Err? {
        return Err(DiffFailed);
      }
      ChangesInRange(sha, size, mr.value, data);
      var sent, count, bytes := SendChanges(remote, name, diff.value.changed, chunks);
      if !sent {
        return Err(LinkDown);
      }
      var done := remote.PutManifest(name, manifest);
      if !done {
        return Err(LinkDown);
      }
      entries := entries[name := SyncEntry(manifest.fileHash, now, manifest.fileSize)];
      return Ok(SyncResult(|manifest.chunks|, count, bytes, false));
    }
  }
}
