/**
 * The filesystem chunk store of the upload backend. The uploads directory
 * becomes the map `chunks` (upload id, then chunk index, to the bytes of
 * `<id>/<index>.chunk`); the completed directory becomes the map
 * `completed` (file name to contents). Directory creation, temporary files
 * and the retry delay are not part of the visible state.
 */
module ChunkStore {
  import opened Chunking

  /** How one attempt of store_chunk's write-to-temp-then-rename sequence
      ends: the rename happened, an OS-level error (to be retried), or any
      other error (which aborts at once). */
  datatype AttemptOutcome = Renamed | OsError | OtherError

  /** Number of attempts store_chunk makes. */
  const MaxRetries: nat := 3

  /** Outcome of attempt `k` when the environment reports `attempts`; an
      attempt past the end of the list succeeds. */
  function OutcomeOf(attempts: seq<AttemptOutcome>, k: nat): AttemptOutcome
  {
    if k < |attempts| then attempts[k] else Renamed
  }

  /** Attempt `k` renamed the chunk into place after `k` retried OS errors. */
  ghost predicate RenamedOnAttempt(attempts: seq<AttemptOutcome>, k: nat)
  {
    OutcomeOf(attempts, k) == Renamed &&
    forall j :: 0 <= j < k ==> OutcomeOf(attempts, j) == OsError
  }

  /** store_chunk reports success exactly when one of its attempts renamed
      the chunk into place, every earlier attempt having failed with an OS
      error. */
  ghost predicate StoreSucceeds(attempts: seq<AttemptOutcome>)
  {
    exists k: nat :: k < MaxRetries && RenamedOnAttempt(attempts, k)
  }

  /** On an undisturbed filesystem the first attempt succeeds. */
  lemma StoreSucceedsUndisturbed()
    ensures StoreSucceeds([])
  {
    assert RenamedOnAttempt([], 0);
  }

  /** Three OS errors in a row exhaust the retries, and an error of any
      other kind fails at once, whatever later attempts would have done;
      a single OS error followed by a rename is retried into success. */
  lemma StoreFailureCases(later: seq<AttemptOutcome>)
    ensures !StoreSucceeds([OsError, OsError, OsError] + later)
    ensures !StoreSucceeds([OtherError] + later)
    ensures StoreSucceeds([OsError, Renamed] + later)
  {
    var three := [OsError, OsError, OsError] + later;
    forall k: nat | k < MaxRetries ensures !RenamedOnAttempt(three, k) {
      assert OutcomeOf(three, k) == OsError;
    }
    var other := [OtherError] + later;
    forall k: nat | k < MaxRetries ensures !RenamedOnAttempt(other, k) {
      if k > 0 {
        assert OutcomeOf(other, 0) == OtherError;
      }
    }
    var retry := [OsError, Renamed] + later;
    assert OutcomeOf(retry, 0) == OsError;
    assert RenamedOnAttempt(retry, 1);
  }

  /** The chunks stored for one upload: an absent directory holds none. */
  function SessionChunks(chunks: map<string, map<int, seq<byte>>>, id: string): map<int, seq<byte>>
  {
    if id in chunks then chunks[id] else map[]
  }

  /** The store after `<id>/<index>.chunk` is (re)written with `data`: that
      one chunk changes and every other chunk of every upload stays. */
  function WithChunk(chunks: map<string, map<int, seq<byte>>>, id: string, index: int, data: seq<byte>)
    : (r: map<string, map<int, seq<byte>>>)
    ensures SessionChunks(r, id) == SessionChunks(chunks, id)[index := data]
    ensures forall other :: other != id ==> SessionChunks(r, other) == SessionChunks(chunks, other)
    ensures r.Keys == chunks.Keys + {id}
  {
    chunks[id := SessionChunks(chunks, id)[index := data]]
  }

  /** Storing the same chunk twice leaves the same state as storing it once. */
  lemma StoreTwiceSameState(chunks: map<string, map<int, seq<byte>>>, id: string, index: int, data: seq<byte>)
    ensures WithChunk(WithChunk(chunks, id, index, data), id, index, data) == WithChunk(chunks, id, index, data)
  {
    var once := WithChunk(chunks, id, index, data);
    assert id in once;
    assert SessionChunks(once, id)[index := data] == SessionChunks(once, id);
  }

  /** Reassembly succeeds exactly when the stored indices are `0 ..
      totalChunks-1`, no more and no fewer, and, when a size is expected,
      the chunks add up to it. */
  ghost predicate CanReassemble(stored: map<int, seq<byte>>, totalChunks: int, expectedSize: Option<int>)
  {
    stored.Keys == Range(totalChunks) &&
    (expectedSize.Some? ==> |Assemble(stored, totalChunks)| == expectedSize.value)
  }

  predicate IsHexDigit(c: char)
  {
    '0' <= c <= '9' || 'a' <= c <= 'f'
  }

  /** A SHA-256 digest as Python's `hexdigest()` writes it: 64 lower-case
      hexadecimal digits. */
  type Sha256Hex = s: string | |s| == 64 && forall i :: 0 <= i < |s| ==> IsHexDigit(s[i])
    witness seq(64, _ => '0')

  class Storage {
    /** The uploads directory: upload id, then chunk index, to chunk bytes. */
    var chunks: map<string, map<int, seq<byte>>>
    /** The completed directory: file name to file contents. */
    var completed: map<string, seq<byte>>
    /** SHA-256 as a hex string, an opaque function of a file's bytes. */
    const digest: seq<byte> -> Sha256Hex

    /** A store over directories that may already hold chunks and files
        (the directories are created when missing, which changes nothing
        visible). */
    constructor (existingChunks: map<string, map<int, seq<byte>>>,
                 existingFiles: map<string, seq<byte>>,
                 sha256: seq<byte> -> Sha256Hex)
      ensures chunks == existingChunks && completed == existingFiles && digest == sha256
    {
      chunks := existingChunks;
      completed := existingFiles;
      digest := sha256;
    }

    /** The indices stored for an upload. */
    function Indices(id: string): set<int>
      reads this
    {
      SessionChunks(chunks, id).Keys
    }

    /** Writes chunk `index` of upload `id`, trying up to MaxRetries times.
        Each attempt writes a temporary file and renames it over the chunk,
        so a failed attempt leaves the visible chunk as it was; `attempts`
        says how each attempt ends. */
    method StoreChunk(id: string, index: int, data: seq<byte>, attempts: seq<AttemptOutcome>)
      returns (ok: bool)
      modifies this
      ensures ok == StoreSucceeds(attempts)
      ensures chunks == if ok then WithChunk(old(chunks), id, index, data) else old(chunks)
      ensures completed == old(completed)
      ensures ok ==> ChunkExists(id, index) && GetChunk(id, index) == Some(data)
                     && GetChunkSize(id, index) == Some(|data|)
    {
      var attempt: nat := 0;
      while attempt < MaxRetries
        invariant attempt <= MaxRetries
        invariant chunks == old(chunks) && completed == old(completed)
        invariant forall j :: 0 <= j < attempt ==> OutcomeOf(attempts, j) == OsError
        decreases MaxRetries - attempt
      {
        match OutcomeOf(attempts, attempt)
        case Renamed =>
          assert RenamedOnAttempt(attempts, attempt);
          chunks := WithChunk(chunks, id, index, data);
          return true;
        case OtherError =>
          assert !RenamedOnAttempt(attempts, attempt);
          forall k: nat | k < MaxRetries ensures !RenamedOnAttempt(attempts, k) {
            if k > attempt {
              assert OutcomeOf(attempts, attempt) != OsError;
            }
          }
          return false;
        case OsError =>
          attempt := attempt + 1;
      }
      forall k: nat | k < MaxRetries ensures !RenamedOnAttempt(attempts, k) {
        assert OutcomeOf(attempts, k) == OsError;
      }
      return false;
    }

    /** Whether `<id>/<index>.chunk` exists. */
    function ChunkExists(id: string, index: int): (r: bool)
      reads this
      ensures r <==> index in Indices(id)
    {
      index in SessionChunks(chunks, id)
    }

    /** The bytes of a stored chunk, or None when it is not stored. */
    function GetChunk(id: string, index: int): (r: Option<seq<byte>>)
      reads this
      ensures r.Some? <==> ChunkExists(id, index)
      ensures r.Some? ==> r.value == chunks[id][index]
    {
      if index in SessionChunks(chunks, id) then Some(chunks[id][index]) else None
    }

    /** The byte length of a stored chunk, or None when it is not stored. */
    function GetChunkSize(id: string, index: int): (r: Option<int>)
      reads this
      ensures r.Some? <==> ChunkExists(id, index)
      ensures r.Some? ==> r.value == |GetChunk(id, index).value|
    {
      if index in SessionChunks(chunks, id) then Some(|chunks[id][index]|) else None
    }

    /** The stored indices of an upload in increasing order; an upload with
        no directory lists nothing. The directory is scanned in whatever
        order it yields its files, and each index is put at its place. */
    method ListChunks(id: string) returns (r: seq<int>)
      ensures StrictlyIncreasing(r)
      ensures forall x :: x in r <==> x in Indices(id)
    {
      if id !in chunks {
        return [];
      }
      var remaining := chunks[id].Keys;
      r := [];
      while remaining != {}
        invariant remaining <= Indices(id)
        invariant StrictlyIncreasing(r)
        invariant forall x :: x in r <==> x in Indices(id) && x !in remaining
        decreases |remaining|
      {
        NonEmptyHasMember(remaining);
        var x :| x in remaining;
        r := InsertSorted(r, x);
        remaining := remaining - {x};
      }
    }

    /** Writes chunks `0 .. totalChunks-1` of upload `id`, in index order,
        to the completed file `outputName`. It refuses unless the stored
        index set is exactly that range, and, when `expectedSize` is given,
        unless the file has that size. On any refusal no file of that name
        remains, not even one that existed before. Chunks are never
        changed. */
    method ReassembleFile(id: string, totalChunks: int, outputName: string, expectedSize: Option<int>)
      returns (r: Option<string>)
      modifies this
      ensures chunks == old(chunks)
      ensures r.Some? <==> CanReassemble(SessionChunks(chunks, id), totalChunks, expectedSize)
      ensures r.Some? ==> (r.value == outputName &&
                completed == old(completed)[outputName := Assemble(SessionChunks(chunks, id), totalChunks)])
      ensures r.None? ==> completed == old(completed) - {outputName}
    {
      var received := ListChunks(id);
      var receivedIndices := set x | x in received;
      forall x ensures x in receivedIndices <==> x in Indices(id) {
        if x in received {
          assert x in receivedIndices;
        }
      }
      assert receivedIndices == Indices(id);
      if Range(totalChunks) != receivedIndices {
        // "Missing chunks": the handler removes any file of that name
        completed := completed - {outputName};
        return None;
      }
      // the output file, opened for writing, receives the chunks in order
      var written := ConcatenateChunks(id, totalChunks);
      completed := completed[outputName := written];
      if expectedSize.Some? && |completed[outputName]| != expectedSize.value {
        // "Size mismatch": the file is unlinked
        completed := completed - {outputName};
        return None;
      }
      return Some(outputName);
    }

    /** The bytes reassembly writes: chunks `0 .. n-1` of upload `id` read
        back one by one and appended in index order. */
    method ConcatenateChunks(id: string, n: int) returns (written: seq<byte>)
      requires forall i :: 0 <= i < n ==> i in SessionChunks(chunks, id)
      ensures written == Assemble(SessionChunks(chunks, id), n)
    {
      ghost var stored := SessionChunks(chunks, id);
      written := [];
      var count := if n < 0 then 0 else n;
      var i := 0;
      while i < count
        invariant 0 <= i <= count
        invariant written == Assemble(stored, i)
      {
        assert i in Indices(id);
        var piece := GetChunk(id, i);
        AssembleNext(stored, i);
        written := written + piece.value;
        i := i + 1;
      }
    }

    /** Removes the upload's directory with all its chunks; succeeds also
        when there is nothing to remove. */
    method CleanupChunks(id: string) returns (ok: bool)
      modifies this
      ensures ok
      ensures chunks == old(chunks) - {id}
      ensures Indices(id) == {}
      ensures forall other :: other != id ==> Indices(other) == old(Indices(other))
      ensures completed == old(completed)
    {
      if id in chunks {
        chunks := chunks - {id};
      }
      return true;
    }

    /** The SHA-256 checksum of a completed file: 64 lower-case hex digits,
        determined by the file's contents alone. */
    function GetFileChecksum(name: string): (r: string)
      reads this
      requires name in completed
      ensures |r| == 64 && forall i :: 0 <= i < |r| ==> IsHexDigit(r[i])
      ensures forall other :: other in completed && completed[other] == completed[name] ==>
                r == digest(completed[other])
    {
      digest(completed[name])
    }
  }

  /** The round trip of the storage tests: split `data` into chunks of
      `chunkSize` bytes the way the tests slice it, store chunk `k` under
      index `k` in an empty store, and reassemble with the expected size;
      the completed file is `data`. */
  method StoreSlicesAndReassemble(data: seq<byte>, chunkSize: int, id: string, name: string,
                                  sha256: seq<byte> -> Sha256Hex)
    returns (contents: Option<seq<byte>>)
    requires chunkSize > 0
    ensures contents == Some(data)
  {
    var store := new Storage(map[], map[], sha256);
    StoreSlices(store, data, chunkSize, id);
    var total := CeilDiv(|data|, chunkSize);
    ReassembleSplit(data, chunkSize);
    var path := store.ReassembleFile(id, total, name, Some(|data|));
    contents := if path.Some? then Some(store.completed[path.value]) else None;
  }

  /** Stores chunk `k` of `data` under index `k` for every `k`, slicing as
      the storage tests do; afterwards upload `id` holds exactly the
      indexed chunks of `Split(data, chunkSize)`. */
  method StoreSlices(store: Storage, data: seq<byte>, chunkSize: int, id: string)
    requires chunkSize > 0 && id !in store.chunks
    modifies store
    ensures SessionChunks(store.chunks, id) == Indexed(Split(data, chunkSize))
  {
    var total := CeilDiv(|data|, chunkSize);
    ghost var parts := Split(data, chunkSize);
    SplitCount(data, chunkSize);
    StoreSucceedsUndisturbed();
    assert Indexed(parts[..0]) == map[];
    var i := 0;
    while i < total
      invariant 0 <= i <= total == |parts|
      invariant SessionChunks(store.chunks, id) == Indexed(parts[..i])
    {
      var piece := ChunkSlice(data, chunkSize, i);
      ghost var before := store.chunks;
      var ok := store.StoreChunk(id, i, piece, []);
      StoredNext(before, store.chunks, id, parts, i);
      i := i + 1;
    }
    assert parts[..total] == parts;
  }

  /** The slice the storage tests send as chunk `k`:
      `data[k * chunkSize : (k + 1) * chunkSize]`, cut at the end of the
      payload; it is chunk `k` of `Split(data, chunkSize)`. */
  function ChunkSlice(data: seq<byte>, chunkSize: int, k: int): (piece: seq<byte>)
    requires chunkSize > 0 && 0 <= k < CeilDiv(|data|, chunkSize)
    ensures k < |Split(data, chunkSize)| && piece == Split(data, chunkSize)[k]
  {
    SplitCount(data, chunkSize);
    SplitSlice(data, chunkSize, k);
    MulMonotone(0, k, chunkSize);
    data[k * chunkSize .. Min2(k * chunkSize + chunkSize, |data|)]
  }

  /** One more chunk stored extends the indexed prefix by one. */
  lemma StoredNext(before: map<string, map<int, seq<byte>>>, after: map<string, map<int, seq<byte>>>,
                   id: string, parts: seq<seq<byte>>, i: int)
    requires 0 <= i < |parts|
    requires SessionChunks(before, id) == Indexed(parts[..i])
    requires SessionChunks(after, id) == SessionChunks(before, id)[i := parts[i]]
    ensures SessionChunks(after, id) == Indexed(parts[..i + 1])
  {
    IndexedSnoc(parts, i);
  }

  /** The listing test: chunks stored in the order 3, 1, 5, 2 are listed
      as [1, 2, 3, 5]. */
  method ListingExample(id: string, sha256: seq<byte> -> Sha256Hex) returns (listed: seq<int>)
    ensures listed == [1, 2, 3, 5]
  {
    var store := new Storage(map[], map[], sha256);
    StoreSucceedsUndisturbed();
    var ok := store.StoreChunk(id, 3, [3], []);
    assert store.Indices(id) == {3};
    ok := store.StoreChunk(id, 1, [1], []);
    assert store.Indices(id) == {3, 1};
    ok := store.StoreChunk(id, 5, [5], []);
    assert store.Indices(id) == {3, 1, 5};
    ok := store.StoreChunk(id, 2, [2], []);
    assert store.Indices(id) == {1, 2, 3, 5};
    listed := store.ListChunks(id);
    ListingOfExample(listed, store.Indices(id));
  }

  lemma ListingOfExample(listed: seq<int>, stored: set<int>)
    requires stored == {1, 2, 3, 5}
    requires StrictlyIncreasing(listed)
    requires forall x :: x in listed <==> x in stored
    ensures listed == [1, 2, 3, 5]
  {
    IncreasingByNeighbours([1, 2, 3, 5]);
    IncreasingSameMembers(listed, [1, 2, 3, 5]);
  }
}
