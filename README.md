# Resumable chunked upload backend: a Dafny model

This project models the server core of a resumable file-upload backend. A
client announces a file (`init_upload`). It then sends the file as numbered
chunks (`upload_chunk`), and may ask how far the upload has got
(`get_upload_status`). Finally it asks the server to put the file back
together (`complete_upload`).

The model has three modules, one per file:

- `Chunking` (chunking.dfy) holds the pure arithmetic and sequence facts the
  other two rely on:
  - the chunk count `ceil(totalSize / chunkSize)`;
  - Python's `set(range(n))` and `sorted(...)` on sets of chunk indices;
  - the way a payload is cut into chunks and glued back together.
- `ChunkStore` (chunk_store.dfy) models `Storage` of
  `backend/app/storage.py` as a class.
  - The uploads directory becomes the field `chunks`: upload id, then chunk
    index, to the bytes of that chunk file.
  - The completed directory becomes the field `completed`: file name to
    contents.
  - `store_chunk` is the retry loop of the source. The argument `attempts`
    says how each write-then-rename attempt ends.
  - The source's `list_chunks` collects every index and sorts the list once.
    The model's loop instead inserts each index at its sorted place.
    `SortedUnique` shows that both give the same list.
  - `reassemble_file` is the loop that appends the chunks in index order.
    It refuses unless the stored indices are exactly `0 .. totalChunks-1`,
    or when the size differs, and then removes the output file.
- `Uploads` (upload_service.dfy) models the session record and the service
  of `backend/app/upload_service.py`.
  - `UploadSession` is a datatype with `is_complete` and
    `get_missing_chunks`.
  - `UploadService` is a class whose field `sessions` is the
    in-memory session registry.
  - Each service method is proved against a postcondition that gives the
    whole new state of the registry and the store, case by case in the
    source's order of checks.

Upload ids are chosen fresh with `:|`; the source draws a uuid4. Clock
readings (`created_at`, the metadata timestamp) are `Timestamp` parameters.
SHA-256 is an uninterpreted function `digest` that the `Storage` constructor
receives; its results are 64 lower-case hexadecimal digits.

Behaviour of the code worth knowing:

- A second `complete_upload` for the same id returns nothing; no completion
  result is cached.
- A chunk stored again with a different length is overwritten
  (`upload_chunk` falls through to `store_chunk`); no conflict is reported.
- `complete_upload` first judges completeness by counting the in-memory
  received set (`is_complete`). Only then does `reassemble_file` check the
  chunks on disk.
- Reassembly overwrites an existing completed file of the same name.

## Model

| member | source | states |
|---|---|---|
| Chunking.CeilDiv | backend/app/upload_service.py:62 | the chunk count `r` satisfies `totalSize <= r*chunkSize < totalSize + chunkSize`, and is zero exactly when the size is zero |
| Chunking.CeilDivUnique | backend/app/upload_service.py:62 | any count meeting those bounds is the one the service computes, so the count is determined by size and chunk size |
| Chunking.Range | backend/app/upload_service.py:32 | `set(range(n))` holds exactly the integers `0 <= i < n` (empty for `n <= 0`) |
| Chunking.RangeSize | backend/app/upload_service.py:26-32 | `range(n)` has exactly `n` members, which links counting the received set to holding every index |
| Chunking.FullSubsetOfRange | backend/app/upload_service.py:26-28 | a subset of `range(n)` has `n` members exactly when it is all of `range(n)` |
| Chunking.SortedOf | backend/app/upload_service.py:33 | `sorted(s)` is strictly increasing, has exactly the members of `s`, and has length `|s|` |
| Chunking.InsertSorted | backend/app/storage.py:153-161 | inserting a new index into an increasing listing keeps it strictly increasing and adds exactly that index |
| Chunking.SortedUnique | backend/app/storage.py:161 | any strictly increasing list with the members of `s` is `sorted(s)`, so a listing in increasing order needs no second sort |
| Chunking.IncreasingSameMembers | backend/app/storage.py:161 | two strictly increasing index lists with the same members are equal |
| Chunking.IncreasingByNeighbours | backend/tests/unit/test_storage.py:114 | a list whose neighbours increase is strictly increasing (used to show `[1, 2, 3, 5]` is a sorted listing) |
| Chunking.Split | backend/tests/unit/test_storage.py:120-127 | the chunks a client sends for a payload; every chunk is non-empty and at most `chunkSize` bytes |
| Chunking.SplitCount | backend/tests/unit/test_storage.py:120-127 | a payload is cut into exactly `ceil(len / chunkSize)` chunks, the count `init_upload` registers |
| Chunking.SplitSlice | backend/tests/unit/test_storage.py:123-126 | chunk `k` starts inside the payload and is the slice `data[k*chunkSize : min(k*chunkSize + chunkSize, len)]` |
| Chunking.SplitConcat | backend/tests/unit/test_storage.py:116-136 | concatenating the chunks of a payload in order gives back the payload |
| Chunking.Indexed | backend/tests/unit/test_storage.py:123-127 | the chunk map of a chunk list has indices `range(len)` and holds chunk `k` under index `k` |
| Chunking.IndexedSnoc | backend/tests/unit/test_storage.py:123-127 | storing chunk `i` after chunks `0 .. i-1` gives the chunk map of the first `i+1` chunks |
| Chunking.Assemble | backend/app/storage.py:195-201 | the bytes the write loop produces for `n` chunks: the stored chunks `0 .. n-1` concatenated in index order, empty for `n <= 0` |
| Chunking.AssemblePrefix | backend/app/storage.py:195-201 | appending stored chunks `0 .. n-1` in index order is concatenating the first `n` chunks of the list they came from |
| Chunking.ReassembleSplit | backend/tests/unit/test_storage.py:116-136 | the chunk map of a split payload has exactly the indices `range(totalChunks)`, and reassembling it gives back the payload |
| ChunkStore.StoreSucceedsUndisturbed | backend/app/storage.py:60-89 | with no I/O error the first attempt renames the chunk into place and the store succeeds |
| ChunkStore.StoreFailureCases | backend/app/storage.py:60-102 | three OS errors in a row exhaust the retries; any other error fails at once whatever follows; one OS error followed by a rename succeeds on the retry |
| ChunkStore.WithChunk | backend/app/storage.py:73-89 | rewriting one chunk file changes that chunk of that upload and no other chunk of any upload |
| ChunkStore.StoreTwiceSameState | backend/tests/unit/test_storage.py:192-207 | storing the same chunk twice leaves the same store as storing it once |
| ChunkStore.Storage.constructor | backend/app/storage.py:14-34 | the store starts over whatever the two directories already hold, with SHA-256 as its digest |
| ChunkStore.Storage.StoreChunk | backend/app/storage.py:47-102 | reports success exactly when some attempt within the 3 allowed renames the file after only OS errors before it; on success exactly that chunk becomes `data`, readable back with its length; on failure nothing changes; completed files never change |
| ChunkStore.Storage.ChunkExists | backend/app/storage.py:104-107 | true exactly when the index is among the upload's stored indices |
| ChunkStore.Storage.GetChunk | backend/app/storage.py:109-130 | the stored bytes when the chunk exists, None exactly when it does not |
| ChunkStore.Storage.GetChunkSize | backend/app/storage.py:132-137 | the byte length of the stored chunk when it exists, None exactly when it does not |
| ChunkStore.Storage.ListChunks | backend/app/storage.py:139-161 | the upload's stored indices, each exactly once, in strictly increasing order; empty when the upload has no directory |
| ChunkStore.Storage.ReassembleFile | backend/app/storage.py:163-217 | gives the output name exactly when the stored indices are exactly `range(totalChunks)` and any expected size matches; then the file is the chunks in index order; otherwise no file of that name remains; chunks never change |
| ChunkStore.Storage.ConcatenateChunks | backend/app/storage.py:195-201 | reading chunks `0 .. n-1` back one by one and appending them gives the stored chunks in index order |
| ChunkStore.Storage.CleanupChunks | backend/app/storage.py:219-236 | succeeds, removes every chunk of the upload (also when there were none), and leaves other uploads and completed files alone |
| ChunkStore.Storage.GetFileChecksum | backend/app/storage.py:238-244 | the checksum of a completed file is 64 lower-case hexadecimal digits, as `hexdigest()` writes SHA-256, and files with the same contents have the same checksum |
| ChunkStore.StoreSlicesAndReassemble | backend/tests/unit/test_storage.py:116-136 | slicing any payload as the test does, storing each slice under its index and reassembling with the expected size yields exactly the payload |
| ChunkStore.StoreSlices | backend/tests/unit/test_storage.py:122-127 | after the store loop the upload holds exactly chunk `k` of the split payload under index `k` |
| ChunkStore.ChunkSlice | backend/tests/unit/test_storage.py:124-126 | the test's slice for index `k` is chunk `k` of the split payload |
| ChunkStore.StoredNext | backend/tests/unit/test_storage.py:123-127 | one more stored chunk extends the indexed prefix by one (the step of the test's store loop, modelled by `StoreSlices`) |
| ChunkStore.ListingExample | backend/tests/unit/test_storage.py:103-114 | chunks stored in the order 3, 1, 5, 2 are listed as `[1, 2, 3, 5]` |
| ChunkStore.ListingOfExample | backend/tests/unit/test_storage.py:113-114 | the only strictly increasing listing of `{1, 2, 3, 5}` is `[1, 2, 3, 5]` |
| Uploads.UploadSession.IsComplete | backend/app/upload_service.py:26-28 | with only in-range indices received, counting the received set equals holding every index `0 .. totalChunks-1`, in both directions |
| Uploads.UploadSession.MissingChunks | backend/app/upload_service.py:30-33 | the missing list is strictly increasing and holds exactly the indices `0 <= x < totalChunks` not received |
| Uploads.MissingChunksSpec | backend/app/upload_service.py:30-33 | with only in-range indices received, the missing list is empty exactly when the session is complete |
| Uploads.MissingChunksExample | backend/tests/unit/test_upload_service.py:42-54 | five chunks with 0, 2 and 4 received are missing exactly `[1, 3]`, and the session is not complete |
| Uploads.LastSegment | backend/app/upload_service.py:245 | `split('.')[-1]`: a suffix of the name with no '.' in it, preceded by a '.' unless it is the whole name |
| Uploads.Lower | backend/app/upload_service.py:245 | `lower()`: same length, each character lower-cased (ASCII letters only) |
| Uploads.FileExtension | backend/app/upload_service.py:245 | "" for a name without '.'; otherwise the lower-cased text after the last '.', which holds no '.' itself |
| Uploads.ExtensionOfName | backend/app/upload_service.py:245 | the extension of `stem.ext` is `ext` lower-cased, whatever the stem holds, dots included |
| Uploads.SegmentAfterDot | backend/app/upload_service.py:245 | the last '.'-separated segment of `stem.ext` is `ext` |
| Uploads.DetectFileType | backend/app/upload_service.py:243-259 | "dataset", "model_artifact" or "archive" each exactly when the lower-cased extension is on that list, "unknown" exactly when it is on none |
| Uploads.DatasetExample | backend/tests/unit/test_upload_service.py:209 | any name ending in ".jsonl" is a dataset |
| Uploads.UpperCaseExample | backend/app/upload_service.py:245-253 | any name ending in ".CSV" is a dataset, because the extension is lower-cased first |
| Uploads.ModelExample | backend/tests/unit/test_upload_service.py:210 | any name ending in ".pt" is a model artifact |
| Uploads.ArchiveExample | backend/tests/unit/test_upload_service.py:211 | any name ending in ".zip" is an archive |
| Uploads.UnknownExample | backend/tests/unit/test_upload_service.py:212 | any name ending in ".xyz" is unknown |
| Uploads.NoDotName | backend/app/upload_service.py:245 | every name without a '.' has the empty extension and is unknown |
| Uploads.RecordedChecksum | backend/app/upload_service.py:221 | a checksum is recorded exactly when the client supplied a non-empty one, and it is the digest of the completed file |
| Uploads.UploadService.constructor | backend/app/upload_service.py:39-49 | a service over the given store and positive chunk size with no sessions, satisfying the registry invariant |
| Uploads.UploadService.GetSession | backend/app/upload_service.py:76-78 | the session registered under the id, None exactly when there is none |
| Uploads.UploadService.InitUpload | backend/app/upload_service.py:51-74 | registers, under an id not in use, a session with `ceil(totalSize / chunkSize)` chunks, the service's chunk size and nothing received; other sessions are untouched; returns the id and the chunk size |
| Uploads.FiveMiBChunks | backend/tests/unit/test_upload_service.py:150 | a 5 MiB file at the default 1 MiB chunk size has 5 chunks |
| Uploads.DefaultFiveMiBInit | backend/app/upload_service.py:39-74 | a service with the default chunk size registers a 5 MiB file with 5 chunks and returns the 1 MiB chunk size |
| Uploads.UploadService.GetOrCreateSessionFromStorage | backend/app/upload_service.py:80-103 | always the in-memory session or None: chunks on disk never recreate a session |
| Uploads.UploadService.UploadChunk | backend/app/upload_service.py:105-155 | in the source's order: unknown session, index out of range, and chunk-count mismatch each refuse and change nothing; a chunk already stored with the same length is recorded without rewriting; otherwise the store is attempted and its index recorded exactly on success; the count is the size of the received set; the registry invariant is kept |
| Uploads.UploadService.GetUploadStatus | backend/app/upload_service.py:157-188 | a session in memory reports its chunk count, its received indices sorted and its completeness; otherwise the chunks on disk in increasing order with no count and never complete, or None when there are none |
| Uploads.UploadService.CompleteUpload | backend/app/upload_service.py:190-241 | unknown session: nothing, no change; incomplete: the missing indices, no change; otherwise, when reassembly succeeds, the file is the chunks in order, the metadata carries the size, the checksum rule, the detected type and the path, the chunks are removed and the session forgotten; when it fails: nothing, session and chunks kept, no output file left |
| Uploads.RepeatedChunkUpload | backend/tests/unit/test_upload_service.py:105-116 | once a chunk upload succeeded, repeating it succeeds with the same received count |
| Uploads.RepeatedCompletion | backend/app/upload_service.py:237-241 | after a successful completion a second completion of the same id gives nothing |

## Left out

- The HTTP layer (`backend/app/main.py`), the request and response models (`backend/app/models.py`, except that `totalSize` is positive) and the AI hooks (`backend/app/ai_integration.py`) are not part of this model.
- The client-side chunk scheduler and splitter are not part of this model (their source is not among the modelled files). `Split` stands in for the client's slicing.
- Storage.GetFileChecksum: SHA-256 itself is not modelled. The checksum is an uninterpreted function of the file's bytes into 64-digit lower-case hex strings. The source reads the file in 4096-byte blocks; the model hashes the whole contents at once, which gives the same digest.
- Concurrency is not modelled: parallel uploads, two simultaneous completions, races on the same chunk, and the uniqueness of temporary file names.
- Storage.StoreChunk: the temporary file `<index>.chunk.tmp` is not modelled. A failed attempt can leave it behind, and the source never removes it until `cleanup_chunks` deletes the whole directory. The `*.chunk` glob of `list_chunks` never lists it, and reads only open `<index>.chunk`. The growing sleep between retries is left out because it only delays. Directory creation is left out because it changes nothing visible. Upload ids are taken as single plain path parts (non-empty, no '/', not "." or ".."); the source joins them into paths, where `store_chunk("./abc", 0, d)` rewrites chunk 0 of upload "abc", which the model's frame says stays unchanged. The service itself only passes uuid4 ids.
- Storage.GetChunk: a read error that makes the source return None for an existing chunk is not modelled; an existing chunk is always read back.
- Storage.CleanupChunks: a failure of the directory removal (the `False` result) is not modelled; removal always succeeds. Upload ids are taken as single plain path parts (non-empty, no '/', not "." or ".."). In the source, `cleanup_chunks("")` or `cleanup_chunks(".")` removes the whole uploads directory with every upload's chunks, and `cleanup_chunks("a")` also removes the chunks of upload "a/b"; the model removes only the entry of that exact id.
- Storage.ListChunks: chunk files whose names are not integers are skipped by the source; the model's chunk map has integer keys only, so there is nothing to skip. Python's `int()` also accepts names that `store_chunk` never writes, such as `01.chunk` or `+1.chunk`. In a pre-existing directory such a file is listed as 1, possibly twice next to `1.chunk`. The model's integer-keyed chunk map cannot hold such files, so it does not capture those duplicate listings.
- Storage.ReassembleFile: the "chunk not found during reassembly" handler (storage.py:198-200) is reached only through a read error in `get_chunk` or a chunk removed concurrently, and neither is modelled (see Storage.GetChunk and Concurrency). I/O errors while writing the output file are not modelled. The output path is the file name, without the completed-directory prefix. File names are taken as single plain path parts (non-empty, no '/', not "." or ".."). In the source, "./x" and "x" name the same completed file, and "../x" lies outside the completed directory; the model keys completed files by the exact string, so it does not capture such overwrites or writes outside the directory.
- Lower: lower-cases ASCII letters only; Python's `str.lower` also lower-cases other Unicode letters.
- UploadService.InitUpload: the uuid4 text format of ids is not modelled; an id is any non-empty string not already registered.
- UploadService.constructor: requires a positive chunk size; the source accepts any integer, but a chunk size of zero or less makes `init_upload` divide by zero or give a meaningless count.
- UploadSession: sessions are values in the registry map, so the aliasing of the session object that `get_session` returns is not modelled; every mutation goes through the service's methods.
- CompleteUpload: the incomplete case returns the missing list as a result value where the source raises `ValueError` carrying that list in its message. The file name comes from the client unchecked and is taken as a single plain path part (non-empty, no '/', not "." or ".."); a session named "./x" overwrites the completed file "x", and one named "../x" writes outside the completed directory, which the success frame `completed == old(completed)[filename := contents]` does not capture.
- Logging is not modelled: the `print` diagnostics of `store_chunk`, `get_chunk`, `reassemble_file` and `cleanup_chunks` have no effect on the state or the results.
- Message texts are modelled as the `ChunkMessage` constructors, not as the formatted strings.
