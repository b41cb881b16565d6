# s3-archiver: the archive producer, modelled in Dafny

s3-archiver copies every object under a prefix of one S3 bucket into a
single zip archive and uploads it to another bucket. This project models
the part that builds the archive, `Archiver.CreateArchive` in
`archiver/archiver.go`, and proves what it does.

`CreateArchive` creates a zip writer and sets Deflate to its fastest level.
It then walks the listed objects in order. For each object it:

1. fetches the object's body;
2. derives the entry name from the key, relative to the scanned prefix;
3. creates a Deflate entry header;
4. copies the body into the entry;
5. closes the body.

It stops at the first error. The zip writer is finalized only when every
object went through.

Layout:

- `objects.dfy` (module `Objects`): bytes, `Option`, listed objects and
  store locations.
- `entry_names.dfy` (module `EntryNames`): the entry-name derivation as a
  pure function, with its edge cases proved.
- `s3client.dfy` (module `S3Client`): the object store.
  - `Client.GetObject` either fails or hands out a fresh `Reader`.
  - Ghost state records the order of requests and the readers handed out.
    For each reader it also records whether it was read from, how often it
    was closed, and how many requests had been made by the time it was
    closed.
- `zip.dfy` (module `Zip`): the zip writer as a class.
  - Its state is a sequence of entries, each a name, a compression method
    and the bytes written into it.
  - It also holds the Deflate level and a flag recording that Close was
    called, after which no header or write is accepted.
  - As in Go's archive/zip, a header whose name ends in '/' becomes a stored
    directory entry, which refuses any non-empty write.
- `archiver.dfy` (module `Archiver`): the specification and the
  imperative model.
  - `Step`, `Archive` and `ExpectedRun` are the specification: what one
    object, the loop and the whole call produce.
  - `ArchiveObject` (the loop body), `ArchiveObjects` (the loop) and
    `CreateArchive` are imperative, each proved against that specification.
- `archive_properties.dfy` (module `ArchiveProperties`): the promises of
  `CreateArchive`, proved about `ExpectedRun`.

The outcome of each collaborator call is an input of the model:

- one `Fault` per object says whether its fetch, its header or its copy
  fails (a failing copy delivers at most a given number of bytes first);
- `closeFails` says whether finalization fails;
- a fetch of a location the store does not hold always fails.

Errors are the constructors of `ArchiveError`, one per failure point. A
failed fetch carries the object's key, as the message in the source does.

## Model

| member | source | states |
|---|---|---|
| EntryNames.EntryName | archiver/archiver.go:42-47 | the entry name of a key; it carries no ensures of its own and is characterised by EntryNameIsSuffix, StrippedKeyRebuilds and UnmatchedKeyUnchanged below |
| EntryNames.HasPrefix | archiver/archiver.go:43 | Go's strings.HasPrefix: p is a leading part of s; it carries no ensures of its own and is used by EntryName, whose lemmas StrippedKeyRebuilds and UnmatchedKeyUnchanged cover both outcomes of the guard |
| EntryNames.TrimPrefix | archiver/archiver.go:46 | when the string starts with the prefix, the prefix followed by the result rebuilds the string; otherwise the string is returned unchanged |
| EntryNames.EntryNameIsSuffix | archiver/archiver.go:42-47 | an entry name is always a trailing part of its key |
| EntryNames.StrippedKeyRebuilds | archiver/archiver.go:43-46 | with a non-empty matching prefix, the key is the prefix, then one '/' exactly when one followed the prefix, then the name |
| EntryNames.SecondSlashSurvives | archiver/archiver.go:44-46 | only one leading '/' is trimmed: after prefix + "//" the name still starts with '/' |
| EntryNames.KeyEqualToPrefixIsEmpty | archiver/archiver.go:43-44 | a key equal to a non-empty prefix gets the empty name |
| EntryNames.UnmatchedKeyUnchanged | archiver/archiver.go:42-43 | with an empty prefix, or a prefix the key does not start with, the name is the key, leading '/' included |
| EntryNames.FlatteningExamples | archiver/archiver.go:42-47 | worked examples: prefixes with and without a trailing '/', an unmatched key, an empty prefix |
| EntryNames.DistinctKeysShareName | archiver/archiver.go:43-46 | a prefix without a trailing '/' gives "logs/x" and "logsx" the same name "x" |
| S3Client.Client.GetObject | s3client/s3client.go:71-83 | logs the request; fails exactly when the call fails or the location is absent; otherwise returns a fresh open reader over the stored bytes, tagged with its request number and appended to the client's log of issued readers |
| S3Client.Reader.Close | archiver/archiver.go:65 | the reader is closed, its close count goes up by one, and it records how many requests its client had received by then |
| Zip.Writer.constructor | archiver/archiver.go:25 | a new writer has no entries, is not closed and uses archive/zip's default Deflate level |
| Zip.Writer.RegisterDeflate | archiver/archiver.go:28-30 | on a writer that has no entries yet and has not been closed, sets the Deflate level and changes nothing else, so the level holds for every entry created afterwards |
| Zip.HeaderMethod | archiver/archiver.go:50-57 | a header whose name ends in '/' is recorded with Store whatever method was asked for; any other keeps the requested method |
| Zip.Writer.CreateHeader | archiver/archiver.go:50-57 | needs a writer that has not been closed; on success appends one empty entry with the given name and the method HeaderMethod gives it; on failure the entries are unchanged |
| Zip.Writer.Write | archiver/archiver.go:64 | needs a writer that has not been closed and has an entry; succeeds exactly when the last entry accepts the bytes (a directory accepts only an empty write); on success appends them to the last entry, on failure changes nothing; earlier entries are unchanged |
| Zip.Writer.Close | archiver/archiver.go:72 | records that Close was called and counts the call; the entries are unchanged |
| Objects.LocationsOfAt | archiver/archiver.go:33-35 | position j of the request log built by the loop is object j's location |
| Objects.LocationsOfSnoc | archiver/archiver.go:33-35 | fetching the next object extends the request log of the first n objects to that of the first n + 1 |
| Archiver.Step | archiver/archiver.go:34-68 | what one pass of the loop body does for one object; it carries no ensures of its own and is characterised by ArchiveProperties.StepOutcomes |
| Archiver.Delivered | archiver/archiver.go:64-67 | a copy delivers a prefix of the body: all of it on success, and at most the cut-off length on failure |
| Archiver.Archive | archiver/archiver.go:33-69 | the loop from a position fetches at most the objects that remain |
| Archiver.ExpectedRun | archiver/archiver.go:23-77 | the outcome of the whole call; it carries no ensures of its own and is characterised by ArchiveProperties.FinalizedIffAllArchived, FirstFailureDecides and HealthyRun |
| Archiver.AllArchivedAt | archiver/archiver.go:33-69 | a loop that got past object n went through each object before n |
| Archiver.ArchivedEntriesAt | archiver/archiver.go:33-69 | entry j of a failure-free prefix is object j's entry |
| Archiver.ArchiveAfterPrefix | archiver/archiver.go:33-69 | once the first n objects went through, the run is their entries, followed by the run from n on |
| Archiver.ArchiveUnfoldArchived | archiver/archiver.go:33-69 | past an object that went through, the loop is its entry followed by the loop from the next object |
| Archiver.ArchiveAllArchived | archiver/archiver.go:33-69 | when every object went through, the loop yields their entries, fetches and opens every object, and has no failure |
| Archiver.ArchivedSnoc | archiver/archiver.go:33-69 | an object that goes through extends the archived prefix by exactly its entry |
| Archiver.FailureEndsArchive | archiver/archiver.go:36-37 | the first failing object ends the loop, with its error and whatever it left, after n + 1 fetches |
| Archiver.ArchiveStepAt | archiver/archiver.go:33-69 | after n objects went through, the next object's outcome either extends the archived prefix by its entry or ends the loop with its error, n + 1 fetches and the entries it left |
| Archiver.ReleasedSnoc | archiver/archiver.go:59-65 | a reader closed once before the next request extends the record of released readers |
| Archiver.Copy | archiver/archiver.go:64-67 | io.Copy needs an open body and a writer that has not been closed; it marks the body as read from, appends the delivered bytes to the current entry when the entry accepts them, and reports success exactly when nothing was cut off and the entry accepted the bytes |
| Archiver.ArchiveObject | archiver/archiver.go:34-68 | on a writer that has not been closed, one object behaves as Step says: the error returned, the entries added, one request logged; the reader GetObject issued, if any, is appended to the client's log, is read from exactly when its header was created (while it was still open, as Copy requires), and is then closed exactly once before returning |
| Archiver.ArchiveAt | archiver/archiver.go:33-69 | after the loop body at position i, either the first i + 1 objects went through, or the loop ends with Archive's outcome; the request log grows by this object, and every reader the client issued in the loop is released |
| Archiver.ArchiveObjects | archiver/archiver.go:33-69 | on a writer that has not been closed, the loop produces exactly Archive's entries and failure; it requests exactly the first `fetched` objects in listing order; the client issues one reader per opened object, and each is closed exactly once before the next request |
| Archiver.CreateArchive | archiver/archiver.go:23-77 | the writer uses the fastest Deflate level, chosen before the first entry is created, and ends holding ExpectedRun's entries, all written before Close, since no entry can be added once the writer is closed; it returns ExpectedRun's error; it is closed, and Close is called exactly once, only when finalized; exactly the objects ExpectedRun fetched are requested, in order; every reader the client issued during the call is closed exactly once, before the next request |
| ArchiveProperties.StepOutcomes | archiver/archiver.go:35-68 | each failure point of one object, and its absence, is characterised both ways, including a directory-named object with content, whose copy fails; what a success writes; only a failed copy leaves a (partial) entry behind |
| ArchiveProperties.ArchiveCounts | archiver/archiver.go:33-69 | readers opened equal objects fetched, less one if a fetch failed; entries equal objects fetched, less one if a fetch or header failed; a failure-free loop fetches every object |
| ArchiveProperties.ArchiveEntryAt | archiver/archiver.go:42-64 | entry j of the loop belongs to the object at that position: name from its key, Deflate (Store for a directory name), bytes a prefix of its content, and the full content unless it is a failed copy's entry |
| ArchiveProperties.FirstFailure | archiver/archiver.go:33-69 | if not every object went through, there is a first one that failed |
| ArchiveProperties.FinalizedIffAllArchived | archiver/archiver.go:71-76 | the archive is finalized if and only if every object went through; the call succeeds if and only if, in addition, Close succeeds; a Close failure is the error returned |
| ArchiveProperties.FirstFailureDecides | archiver/archiver.go:33-69 | the first failing object k decides the whole run: its error; k + 1 objects fetched and none later; earlier entries plus what it left; not finalized |
| ArchiveProperties.GetFailureStops | archiver/archiver.go:35-38 | a failed fetch of object k returns its key's error: no entry for k or later, no reader for k, nothing later fetched, no finalization |
| ArchiveProperties.HeaderFailureStops | archiver/archiver.go:57-61 | a failed header for object k: no entry for k or later; k's reader was opened; nothing later fetched; no finalization |
| ArchiveProperties.CopyFailureStops | archiver/archiver.go:63-68 | a failed copy for object k keeps k's entry, holding the delivered bytes (none for a directory entry); nothing later fetched; no finalization |
| ArchiveProperties.FolderMarkerExample | archiver/archiver.go:42-57 | the folder-marker key "a/b/c/" under "a/b/" becomes the directory entry "c/", recorded with Store |
| ArchiveProperties.DirectoryWithContentFails | archiver/archiver.go:57-67 | a directory-named object with content, with no call failing, ends the run with the copy error; its empty Store entry stays; nothing later is fetched; no finalization |
| ArchiveProperties.HealthyPrefixArchived | archiver/archiver.go:33-69 | with every object present, every call succeeding and no directory-named object having content, every object goes through |
| ArchiveProperties.HealthyRun | archiver/archiver.go:33-76 | a run without failures: one entry per object, in listing order, named from its key, Deflate (Store for a directory name) and holding its full content; every object fetched once; finalized; the error is Close's |
| ArchiveProperties.RunEntriesFollowListing | archiver/archiver.go:33-69 | in any run, entry j belongs to object j: its name, Deflate (Store for a directory name), a prefix of its content, and the full content unless it is a failed copy's entry |

## Left out

- The zip container's byte layout and Deflate itself are not modelled. They come from Go's archive/zip and compress/flate. An entry is modelled as its name, its method and the uncompressed bytes written into it. The registered compressor is modelled only as the level it selects.
- The header's modification time (`time.Now()`) is not modelled: it is nondeterministic and no property depends on it.
- The output `io.Writer` is not modelled. CreateArchive returns the zip writer, so the entries it produced are visible.
- Error values are abstract constructors, not the wrapped `fmt.Errorf` messages; only the key of a failed fetch is kept.
- `NewArchiver` and the empty `Archiver` struct are not modelled; `CreateArchive` is a module-level method.
- `ObjectInfo.size` is carried along but not used, as in the source.
- s3client's `NewS3Client`, `ListObjects` and `UploadStream` are not modelled: they are AWS SDK network I/O. `GetObject` is modelled abstractly; its failure is an input.
- main.go is not modelled. It holds the flag parsing, the pipe and the two goroutines of `processTransfer`, whose point is concurrency. It also holds the listing and empty-listing guards, which only choose whether `CreateArchive` is called.
- `Reader.Close` reports no error, because the archiver ignores the error Close returns.
- The bytes a failing copy delivers before it stops are an input (`CopyFails(delivered)`). The model does not pin down how much of a partial entry a real zip stream keeps.
- Zip.Writer.CreateHeader: a failed call is assumed to add no entry. Whether Go's writer has already recorded anything for the failed header is not modelled.
- Keys and prefixes are Dafny strings, sequences of Unicode scalar values. Go's `strings.HasPrefix`, `len` and slicing at archiver/archiver.go:43-44 work on bytes. The two agree on valid UTF-8, which S3 keys always are. A prefix that ends partway through a multi-byte character cannot be represented.
- Zip.Writer.Write: io.Copy writes in chunks, so a directory entry refuses the first non-empty chunk. The model writes the delivered bytes in one call, with the same outcome: the directory entry stays empty and the copy fails.
