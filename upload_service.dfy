/**
 * The upload service: the in-memory registry of upload sessions, chunk
 * acceptance with its validation order and size-only idempotency check,
 * progress reports, and completion by reassembly. Upload ids come from a
 * fresh choice and clock readings are parameters.
 */
module Uploads {
  import opened Chunking
  import opened ChunkStore

  /** A clock reading (the service stores it and never inspects it). */
  type Timestamp = string

  /** The service's chunk size when none is configured: 1 MiB. */
  const DefaultChunkSize: int := 1024 * 1024

  // ---------------------------------------------------------------------
  // Sessions
  // ---------------------------------------------------------------------

  /** What the service knows about one upload; `received` is the in-memory
      set of accepted chunk indices. */
  datatype UploadSession = UploadSession(
    uploadId: string,
    filename: string,
    totalSize: int,
    totalChunks: int,
    chunkSize: int,
    checksum: Option<string>,
    createdAt: Timestamp,
    received: set<int>)
  {
    /** All chunks have been received, judged by counting the set; with
        only in-range indices received, that is holding every index
        `0 .. totalChunks-1`. */
    predicate IsComplete()
      ensures totalChunks >= 0 && received <= Range(totalChunks) ==>
                (IsComplete() <==> received == Range(totalChunks))
    {
      FullSubsetOfRange(received, totalChunks);
      |received| == totalChunks
    }

    /** The indices in `0 .. totalChunks-1` not yet received, ascending. */
    function MissingChunks(): (m: seq<int>)
      ensures StrictlyIncreasing(m)
      ensures forall x :: x in m <==> 0 <= x < totalChunks && x !in received
    {
      SortedOf(Range(totalChunks) - received)
    }

    /** What every registered session satisfies: a positive size, the chunk
        count fixed as the ceiling of size over chunk size, and only
        in-range indices received. */
    ghost predicate Valid()
    {
      totalSize > 0 && chunkSize > 0 &&
      totalChunks == CeilDiv(totalSize, chunkSize) &&
      received <= Range(totalChunks)
    }
  }

  /** With only in-range indices received, the missing list is empty
      exactly when the session is complete. */
  lemma MissingChunksSpec(s: UploadSession)
    requires s.totalChunks >= 0 && s.received <= Range(s.totalChunks)
    ensures s.MissingChunks() == [] <==> s.IsComplete()
  {
    var gap := Range(s.totalChunks) - s.received;
    assert |s.MissingChunks()| == |gap|;
    if gap != {} {
      NonEmptyHasMember(gap);
      var x :| x in gap;
      assert x in s.MissingChunks();
    }
  }

  /** Five chunks with 0, 2 and 4 received are missing exactly 1 and 3. */
  lemma MissingChunksExample(s: UploadSession)
    requires s.totalChunks == 5 && s.received == {0, 2, 4}
    ensures s.MissingChunks() == [1, 3]
    ensures !s.IsComplete()
  {
    GapOfExample();
    var m := s.MissingChunks();
    assert |m| == 2;
    assert m[0] in m && m[1] in m;
    assert m == [m[0], m[1]];
    assert s.received <= Range(s.totalChunks);
    MissingChunksSpec(s);
  }

  lemma GapOfExample()
    ensures Range(5) - {0, 2, 4} == {1, 3}
  {
    forall x ensures x in Range(5) - {0, 2, 4} <==> x in {1, 3} {
    }
  }

  // ---------------------------------------------------------------------
  // File type detection
  // ---------------------------------------------------------------------

  const DatasetExtensions: set<string> := {"jsonl", "json", "csv", "parquet", "tsv", "txt"}
  const ModelExtensions: set<string> := {"pt", "pth", "ckpt", "safetensors", "onnx", "pb", "h5"}
  const ArchiveExtensions: set<string> := {"zip", "tar", "gz", "bz2"}

  /** The text after the last '.' of `name` (all of `name` when it has
      none). */
  function LastSegment(name: string): (ext: string)
    ensures '.' !in ext
    ensures |ext| <= |name| && ext == name[|name| - |ext|..]
    ensures |ext| < |name| ==> name[|name| - |ext| - 1] == '.'
    decreases |name|
  {
    if |name| == 0 || name[|name| - 1] == '.' then ""
    else
      var init := name[..|name| - 1];
      var ext := LastSegment(init);
      SuffixSnoc(name, |ext|);
      ext + [name[|name| - 1]]
  }

  lemma SuffixSnoc(name: string, k: int)
    requires 0 <= k < |name|
    ensures name[..|name| - 1][|name| - 1 - k..] + [name[|name| - 1]] == name[|name| - 1 - k..]
  {
  }

  /** ASCII lower-casing of one character. */
  function LowerChar(c: char): char
  {
    if 'A' <= c <= 'Z' then (c as int + 32) as char else c
  }

  /** ASCII lower-casing of a string. */
  function Lower(s: string): (r: string)
    ensures |r| == |s| && forall i :: 0 <= i < |s| ==> r[i] == LowerChar(s[i])
  {
    seq(|s|, i requires 0 <= i < |s| => LowerChar(s[i]))
  }

  /** The lower-cased extension of `filename`, or "" when it has no '.'. */
  function FileExtension(filename: string): (ext: string)
    ensures '.' !in filename ==> ext == ""
    ensures '.' in filename ==>
              |ext| < |filename| && filename[|filename| - |ext| - 1] == '.' &&
              '.' !in filename[|filename| - |ext|..] &&
              ext == Lower(filename[|filename| - |ext|..])
  {
    if '.' in filename then
      Lower(LastSegment(filename))
    else ""
  }

  /** The extension of `stem.ext` is `ext`, lower-cased, whatever `stem`
      holds, provided `ext` has no '.' itself. */
  lemma {:induction false} ExtensionOfName(stem: string, ext: string)
    requires '.' !in ext
    ensures FileExtension(stem + "." + ext) == Lower(ext)
    decreases |ext|
  {
    var name := stem + "." + ext;
    assert name[|stem|] == '.';
    SegmentAfterDot(stem, ext);
  }

  lemma {:induction false} SegmentAfterDot(stem: string, ext: string)
    requires '.' !in ext
    ensures LastSegment(stem + "." + ext) == ext
    decreases |ext|
  {
    var name := stem + "." + ext;
    if |ext| == 0 {
      assert name[|name| - 1] == '.';
    } else {
      var init := ext[..|ext| - 1];
      assert ext[|ext| - 1] in ext;
      assert '.' !in init;
      assert name[..|name| - 1] == stem + "." + init;
      SegmentAfterDot(stem, init);
      assert ext == init + [ext[|ext| - 1]];
    }
  }

  /** The file type the service records: "dataset", "model_artifact" or
      "archive" according to which list the extension is on, otherwise
      "unknown" (the lists are disjoint, so the result does not depend on
      the order they are tried in). */
  function DetectFileType(filename: string): (r: string)
    ensures r == "dataset" <==> FileExtension(filename) in DatasetExtensions
    ensures r == "model_artifact" <==> FileExtension(filename) in ModelExtensions
    ensures r == "archive" <==> FileExtension(filename) in ArchiveExtensions
    ensures r == "unknown" <==>
              FileExtension(filename) !in DatasetExtensions + ModelExtensions + ArchiveExtensions
  {
    var ext := FileExtension(filename);
    if ext in DatasetExtensions then "dataset"
    else if ext in ModelExtensions then "model_artifact"
    else if ext in ArchiveExtensions then "archive"
    else "unknown"
  }

  /** The extension decides the type, whatever comes before the last '.'
      (the tests use "data.jsonl", "model.pt" and "archive.zip"). */
  lemma DatasetExample(stem: string)
    ensures DetectFileType(stem + "." + "jsonl") == "dataset"
  {
    ExtensionOfName(stem, "jsonl");
    assert Lower("jsonl") == "jsonl";
  }

  /** Upper-case extensions are lower-cased before the lookup. */
  lemma UpperCaseExample(stem: string)
    ensures DetectFileType(stem + "." + "CSV") == "dataset"
  {
    ExtensionOfName(stem, "CSV");
    assert Lower("CSV") == "csv";
  }

  lemma ModelExample(stem: string)
    ensures DetectFileType(stem + "." + "pt") == "model_artifact"
  {
    ExtensionOfName(stem, "pt");
    assert Lower("pt") == "pt";
    assert "pt" !in DatasetExtensions;
  }

  lemma ArchiveExample(stem: string)
    ensures DetectFileType(stem + "." + "zip") == "archive"
  {
    ExtensionOfName(stem, "zip");
    assert Lower("zip") == "zip";
    assert "zip" !in DatasetExtensions;
    assert "zip" !in ModelExtensions;
  }

  /** An unlisted extension is "unknown", and so is a name without any '.'. */
  lemma UnknownExample(stem: string)
    ensures DetectFileType(stem + "." + "xyz") == "unknown"
  {
    ExtensionOfName(stem, "xyz");
    assert Lower("xyz") == "xyz";
    assert "xyz" !in DatasetExtensions;
    assert "xyz" !in ModelExtensions;
    assert "xyz" !in ArchiveExtensions;
  }

  /** A name without any '.' has the empty extension and is unknown (the
      source's `if '.' in filename` guard). */
  lemma NoDotName(name: string)
    requires '.' !in name
    ensures FileExtension(name) == "" && DetectFileType(name) == "unknown"
  {
    assert "" !in DatasetExtensions + ModelExtensions + ArchiveExtensions;
  }

  // ---------------------------------------------------------------------
  // The service
  // ---------------------------------------------------------------------

  /** The message that accompanies a chunk upload's result. */
  datatype ChunkMessage =
    | SessionNotFound
    | InvalidChunkIndex
    | TotalChunksMismatch
    | AlreadyUploaded
    | ChunkStored
    | StoreFailed

  /** A progress report; `totalChunks` is None when the session is not in
      memory. */
  datatype UploadStatus = UploadStatus(
    uploadId: string,
    totalChunks: Option<int>,
    receivedChunks: seq<int>,
    isComplete: bool)

  /** Metadata of a completed file. */
  datatype FileMetadata = FileMetadata(
    uploadId: string,
    filename: string,
    size: int,
    checksum: Option<string>,
    timestamp: Timestamp,
    fileType: string,
    filepath: string)

  /** Result of a completion request: nothing (unknown session or failed
      reassembly), the incomplete-upload error with its missing indices, or
      the completed file and its metadata. */
  datatype Completion =
    | NoResult
    | Incomplete(missing: seq<int>)
    | Completed(path: string, metadata: FileMetadata)

  /** The checksum recorded on completion: only when the client supplied a
      non-empty one (an empty string is false in the handler's test). */
  function RecordedChecksum(supplied: Option<string>, digest: seq<byte> -> Sha256Hex, contents: seq<byte>)
    : (r: Option<string>)
    ensures r.Some? <==> supplied.Some? && supplied.value != ""
    ensures r.Some? ==> r.value == digest(contents)
  {
    if supplied.Some? && supplied.value != "" then Some(digest(contents)) else None
  }

  /** The chunk count of the service's default configuration for a 5 MiB
      file: 5 chunks of 1 MiB. */
  lemma FiveMiBChunks()
    ensures CeilDiv(5 * DefaultChunkSize, DefaultChunkSize) == 5
  {
    CeilDivUnique(5 * DefaultChunkSize, DefaultChunkSize, 5);
  }

  /** A string longer than every key, hence not one of them. */
  lemma {:induction false} LongerThanAll(keys: set<string>) returns (n: nat)
    ensures n > 0 && forall k :: k in keys ==> |k| < n
    decreases |keys|
  {
    if keys == {} {
      n := 1;
    } else {
      var k :| k in keys;
      var m := LongerThanAll(keys - {k});
      n := if |k| < m then m else |k| + 1;
    }
  }

  class UploadService {
    const storage: Storage
    const chunkSize: int
    var sessions: map<string, UploadSession>

    /** Registered sessions are filed under their own id, carry the
        service's chunk size and keep their own invariant. */
    ghost predicate Valid()
      reads this
    {
      chunkSize > 0 &&
      forall id :: id in sessions ==>
        sessions[id].uploadId == id && sessions[id].chunkSize == chunkSize && sessions[id].Valid()
    }

    constructor (store: Storage, size: int)
      requires size > 0
      ensures Valid()
      ensures storage == store && chunkSize == size && sessions == map[]
    {
      storage := store;
      chunkSize := size;
      sessions := map[];
    }

    /** The session registered under `id`, if any. */
    function GetSession(id: string): (r: Option<UploadSession>)
      reads this
      ensures r.Some? <==> id in sessions
      ensures r.Some? ==> r.value == sessions[id]
    {
      if id in sessions then Some(sessions[id]) else None
    }

    /** Registers a new session under a fresh id, with `ceil(totalSize /
        chunkSize)` chunks and nothing received, and returns the id and the
        service's chunk size. Existing sessions are untouched. */
    method InitUpload(filename: string, totalSize: int, checksum: Option<string>, now: Timestamp)
      returns (uploadId: string, size: int)
      requires Valid() && totalSize > 0
      modifies this
      ensures Valid()
      ensures uploadId !in old(sessions) && |uploadId| > 0
      ensures sessions == old(sessions)[uploadId := UploadSession(uploadId, filename, totalSize,
                CeilDiv(totalSize, chunkSize), chunkSize, checksum, now, {})]
      ensures size == chunkSize
    {
      ghost var n := LongerThanAll(sessions.Keys);
      ghost var longer := seq(n, _ => 'u');
      assert longer !in sessions;
      uploadId :| uploadId !in sessions && |uploadId| > 0;
      var totalChunks := (totalSize + chunkSize - 1) / chunkSize;
      assert totalChunks == CeilDiv(totalSize, chunkSize);
      var session := UploadSession(uploadId, filename, totalSize, totalChunks, chunkSize, checksum, now, {});
      sessions := sessions[uploadId := session];
      size := chunkSize;
    }

    /** The in-memory session, or nothing: the chunks on disk alone cannot
        rebuild a session, so a session not in memory is never recreated. */
    method GetOrCreateSessionFromStorage(id: string) returns (r: Option<UploadSession>)
      ensures r == GetSession(id)
      ensures id !in sessions ==> r == None
    {
      if id in sessions {
        return Some(sessions[id]);
      }
      var received := storage.ListChunks(id);
      if |received| == 0 {
        return None;
      }
      // chunks exist, but without the session's metadata nothing is rebuilt
      return None;
    }

    /** Accepts chunk `index` of upload `id`. Checks run in this order:
        unknown session, index outside `0 .. totalChunks-1`, chunk count
        differing from the session's; each refusal changes nothing. A chunk
        already stored with the same byte length is accepted without
        rewriting it; otherwise the chunk is stored (overwriting a stored
        chunk of another length), and on success its index is recorded.
        The count returned is the size of the session's received set. */
    method UploadChunk(id: string, index: int, data: seq<byte>, totalChunks: int,
                       attempts: seq<AttemptOutcome>)
      returns (success: bool, count: int, message: ChunkMessage)
      requires Valid()
      modifies this, storage
      ensures Valid()
      ensures storage.completed == old(storage.completed)
      ensures id !in old(sessions) ==>
                !success && count == 0 && message == SessionNotFound &&
                sessions == old(sessions) && storage.chunks == old(storage.chunks)
      ensures id in old(sessions) ==>
                var s := old(sessions[id]);
                var accepted := old(sessions)[id := s.(received := s.received + {index})];
                if index < 0 || index >= s.totalChunks then
                  !success && count == |s.received| && message == InvalidChunkIndex &&
                  sessions == old(sessions) && storage.chunks == old(storage.chunks)
                else if totalChunks != s.totalChunks then
                  !success && count == |s.received| && message == TotalChunksMismatch &&
                  sessions == old(sessions) && storage.chunks == old(storage.chunks)
                else if old(storage.GetChunkSize(id, index)) == Some(|data|) then
                  success && count == |s.received + {index}| && message == AlreadyUploaded &&
                  sessions == accepted && storage.chunks == old(storage.chunks)
                else if StoreSucceeds(attempts) then
                  success && count == |s.received + {index}| && message == ChunkStored &&
                  sessions == accepted &&
                  storage.chunks == WithChunk(old(storage.chunks), id, index, data)
                else
                  !success && count == |s.received| && message == StoreFailed &&
                  sessions == old(sessions) && storage.chunks == old(storage.chunks)
      ensures success ==> id in sessions && index in sessions[id].received &&
                          count == |sessions[id].received| &&
                          storage.GetChunkSize(id, index) == Some(|data|)
    {
      var session := GetSession(id);
      if session.None? {
        session := GetOrCreateSessionFromStorage(id);
        if session.None? {
          return false, 0, SessionNotFound;
        }
      }
      var s := session.value;
      if index < 0 || index >= s.totalChunks {
        return false, |s.received|, InvalidChunkIndex;
      }
      if totalChunks != s.totalChunks {
        return false, |s.received|, TotalChunksMismatch;
      }
      if storage.ChunkExists(id, index) {
        var existingSize := storage.GetChunkSize(id, index);
        if existingSize == Some(|data|) {
          // already stored with the same length: record it, do not rewrite
          var updated := s.(received := s.received + {index});
          sessions := sessions[id := updated];
          return true, |updated.received|, AlreadyUploaded;
        }
      }
      var stored := storage.StoreChunk(id, index, data, attempts);
      if stored {
        var updated := s.(received := s.received + {index});
        sessions := sessions[id := updated];
        return true, |updated.received|, ChunkStored;
      } else {
        return false, |s.received|, StoreFailed;
      }
    }

    /** Progress of upload `id`. A session in memory reports its chunk
        count, its received set in ascending order and whether it is
        complete. A session not in memory reports the chunks on disk, with
        no chunk count and never complete, or nothing when there are none. */
    method GetUploadStatus(id: string) returns (r: Option<UploadStatus>)
      ensures id in sessions ==>
                r == Some(UploadStatus(id, Some(sessions[id].totalChunks),
                                       SortedOf(sessions[id].received), sessions[id].IsComplete()))
      ensures id !in sessions && storage.Indices(id) == {} ==> r == None
      ensures id !in sessions && storage.Indices(id) != {} ==>
                r.Some? && r.value.uploadId == id && r.value.totalChunks == None &&
                !r.value.isComplete && StrictlyIncreasing(r.value.receivedChunks) &&
                forall x :: x in r.value.receivedChunks <==> x in storage.Indices(id)
    {
      var session := GetSession(id);
      if session.None? {
        var received := storage.ListChunks(id);
        if |received| == 0 {
          if storage.Indices(id) != {} {
            NonEmptyHasMember(storage.Indices(id));
            assert false;
          }
          return None;
        }
        assert received[0] in received;
        // the listing is already in ascending order, so sorting keeps it
        return Some(UploadStatus(id, None, received, false));
      }
      var s := session.value;
      return Some(UploadStatus(id, Some(s.totalChunks), SortedOf(s.received), s.IsComplete()));
    }

    /** Completes upload `id`. An unknown session gives nothing and an
        incomplete one the list of missing indices, neither changing any
        state. Otherwise the chunks are reassembled into a file named after
        the upload with the expected size; if that fails, nothing is
        returned, the session and its chunks stay, and no file of that name
        remains. On success the metadata is built, the session's chunks are
        removed and the session is forgotten. */
    method CompleteUpload(id: string, now: Timestamp) returns (r: Completion)
      requires Valid()
      modifies this, storage
      ensures Valid()
      ensures id !in old(sessions) ==>
                r == NoResult && sessions == old(sessions) &&
                storage.chunks == old(storage.chunks) && storage.completed == old(storage.completed)
      ensures id in old(sessions) && !old(sessions[id]).IsComplete() ==>
                r == Incomplete(old(sessions[id]).MissingChunks()) && sessions == old(sessions) &&
                storage.chunks == old(storage.chunks) && storage.completed == old(storage.completed)
      ensures id in old(sessions) && old(sessions[id]).IsComplete() ==>
                var s := old(sessions[id]);
                var stored := SessionChunks(old(storage.chunks), id);
                if CanReassemble(stored, s.totalChunks, Some(s.totalSize)) then
                  var contents := Assemble(stored, s.totalChunks);
                  r == Completed(s.filename, FileMetadata(id, s.filename, s.totalSize,
                         RecordedChecksum(s.checksum, storage.digest, contents), now,
                         DetectFileType(s.filename), s.filename)) &&
                  storage.completed == old(storage.completed)[s.filename := contents] &&
                  storage.chunks == old(storage.chunks) - {id} &&
                  sessions == old(sessions) - {id}
                else
                  r == NoResult && sessions == old(sessions) &&
                  storage.chunks == old(storage.chunks) &&
                  storage.completed == old(storage.completed) - {s.filename}
      ensures r.Completed? ==> id !in sessions
    {
      var session := GetSession(id);
      if session.None? {
        return NoResult;
      }
      var s := session.value;
      if !s.IsComplete() {
        return Incomplete(s.MissingChunks());
      }
      var outputPath := storage.ReassembleFile(id, s.totalChunks, s.filename, Some(s.totalSize));
      if outputPath.None? {
        return NoResult;
      }
      var path := outputPath.value;
      var checksum := if s.checksum.Some? && s.checksum.value != ""
                      then Some(storage.GetFileChecksum(path)) else None;
      var fileType := DetectFileType(s.filename);
      var metadata := FileMetadata(id, s.filename, s.totalSize, checksum, now, fileType, path);
      var _ := storage.CleanupChunks(id);
      if id in sessions {
        sessions := sessions - {id};
      }
      return Completed(path, metadata);
    }
  }

  /** A service with the default chunk size registers a 5 MiB file with 5
      chunks and hands the client the 1 MiB chunk size. */
  method DefaultFiveMiBInit(store: Storage, filename: string, now: Timestamp)
    returns (uploadId: string, size: int, totalChunks: int)
    ensures size == DefaultChunkSize && totalChunks == 5
  {
    var service := new UploadService(store, DefaultChunkSize);
    uploadId, size := service.InitUpload(filename, 5 * DefaultChunkSize, None, now);
    totalChunks := service.sessions[uploadId].totalChunks;
    FiveMiBChunks();
  }

  /** Uploading the same chunk twice: once the first call succeeded, the
      second succeeds too and reports the same count (it finds the chunk
      stored with the same length and does not rewrite it). */
  method RepeatedChunkUpload(service: UploadService, id: string, index: int, data: seq<byte>,
                             totalChunks: int, first: seq<AttemptOutcome>, second: seq<AttemptOutcome>)
    returns (ok1: bool, count1: int, ok2: bool, count2: int)
    requires service.Valid()
    modifies service, service.storage
    ensures service.Valid()
    ensures ok1 ==> ok2 && count1 == count2
  {
    var m1, m2;
    ok1, count1, m1 := service.UploadChunk(id, index, data, totalChunks, first);
    ghost var between := service.storage.chunks;
    ok2, count2, m2 := service.UploadChunk(id, index, data, totalChunks, second);
    assert ok1 ==> m2 == AlreadyUploaded && service.storage.chunks == between;
  }

  /** Completing twice: after a successful completion the session is gone,
      so the second request gives nothing. */
  method RepeatedCompletion(service: UploadService, id: string, now1: Timestamp, now2: Timestamp)
    returns (first: Completion, second: Completion)
    requires service.Valid()
    modifies service, service.storage
    ensures service.Valid()
    ensures first.Completed? ==> second == NoResult
  {
    first := service.CompleteUpload(id, now1);
    second := service.CompleteUpload(id, now2);
  }
}
