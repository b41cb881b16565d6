/**
  The archive producer (Archiver.CreateArchive): for each listed object, in
  order, fetch it, name its entry, create the entry header, copy the body
  and release the reader; stop at the first failure; finalize the archive
  only when every object went through.

  The outcome of each collaborator call is an input: one Fault per object
  says which call, if any, fails for it, and `closeFails` says whether
  finalization fails. The functions Step, Archive and ExpectedRun are the
  specification; CreateArchive is proved to behave as ExpectedRun says.
*/
module Archiver {
  import opened Objects
  import opened EntryNames
  import opened Zip
  import S3Client

  /** Which collaborator call fails for one object, if any. */
  datatype Fault =
    | Healthy
    | GetFails                   // GetObject returns an error
    | HeaderFails                // zip CreateHeader returns an error
    | CopyFails(delivered: nat)  // io.Copy fails after moving at most `delivered` bytes

  /** The errors CreateArchive returns, one per failure point. */
  datatype ArchiveError =
    | GetFailed(key: string)
    | HeaderFailed
    | CopyFailed
    | CloseFailed

  /** What processing one object leads to: a finished entry, or an error and what was left in the archive. */
  datatype StepResult =
    | Archived(entry: Entry)
    | Failed(err: ArchiveError, partial: seq<Entry>)

  /**
    How far the loop over the objects gets: the entries written, how many
    objects were fetched, how many readers were opened, and the failure that
    stopped the loop, if any.
  */
  datatype Progress = Progress(entries: seq<Entry>, fetched: nat, opens: nat, failure: Option<ArchiveError>)

  /** The whole observable outcome of one CreateArchive call. */
  datatype Run = Run(entries: seq<Entry>, fetched: nat, opens: nat, finalized: bool, err: Option<ArchiveError>)

  /** The bytes io.Copy moves from `body` before it stops: all of them, or at most `cut` when it fails. */
  function Delivered(body: Bytes, cut: Option<nat>): (d: Bytes)
    ensures |d| <= |body| && body[..|d|] == d
    ensures cut.None? ==> d == body
    ensures cut.Some? ==> |d| == if cut.value < |body| then cut.value else |body|
  {
    match cut
    case None => body
    case Some(n) => if n < |body| then body[..n] else body
  }

  /** The copy outcome a fault prescribes. */
  function CopyCut(fault: Fault): (cut: Option<nat>) {
    if fault.CopyFails? then Some(fault.delivered) else None
  }

  /**
    The effect of processing one object, in the order CreateArchive makes its
    calls. A name ending in '/' makes the entry a stored directory, which
    refuses the object's bytes unless there are none, so the copy fails.
  */
  function Step(bucket: string, sourcePrefix: string, blobs: map<Location, Bytes>, obj: ObjectInfo, fault: Fault): (s: StepResult)
  {
    var loc := Location(bucket, obj.key);
    if fault.GetFails? || loc !in blobs then
      Failed(GetFailed(obj.key), [])
    else if fault.HeaderFails? then
      Failed(HeaderFailed, [])
    else
      var header := Entry(EntryName(obj.key, sourcePrefix), HeaderMethod(EntryName(obj.key, sourcePrefix), Deflate), []);
      var sent := Delivered(blobs[loc], CopyCut(fault));
      if fault.CopyFails? || !Accepts(header, sent) then
        Failed(CopyFailed, [if Accepts(header, sent) then header.(data := sent) else header])
      else
        Archived(header.(data := blobs[loc]))
  }

  /**
    The loop over `objects` from position `from` on: entries of the objects
    processed in order, stopping at the first object whose Step fails.
  */
  function Archive(bucket: string, sourcePrefix: string, blobs: map<Location, Bytes>,
                   objects: seq<ObjectInfo>, faults: seq<Fault>, from: nat): (p: Progress)
    requires |faults| == |objects| && from <= |objects|
    ensures p.fetched <= |objects| - from
    decreases |objects| - from
  {
    if from == |objects| then
      Progress([], 0, 0, None)
    else
      var s := Step(bucket, sourcePrefix, blobs, objects[from], faults[from]);
      if s.Failed? then
        Progress(s.partial, 1, if s.err.GetFailed? then 0 else 1, Some(s.err))
      else
        var rest := Archive(bucket, sourcePrefix, blobs, objects, faults, from + 1);
        Progress([s.entry] + rest.entries, 1 + rest.fetched, 1 + rest.opens, rest.failure)
  }

  /** CreateArchive as a whole: the loop, then finalization only when the loop had no failure. */
  function ExpectedRun(bucket: string, sourcePrefix: string, blobs: map<Location, Bytes>, objects: seq<ObjectInfo>, faults: seq<Fault>, closeFails: bool): (run: Run)
    requires |faults| == |objects|
  {
    var p := Archive(bucket, sourcePrefix, blobs, objects, faults, 0);
    var err := if p.failure.Some? then p.failure else if closeFails then Some(CloseFailed) else None;
    Run(p.entries, p.fetched, p.opens, p.failure.None?, err)
  }

  /** Every one of the first `n` objects is archived without failure. */
  ghost predicate AllArchived(bucket: string, sourcePrefix: string, blobs: map<Location, Bytes>,
                              objects: seq<ObjectInfo>, faults: seq<Fault>, n: nat)
    requires |faults| == |objects| && n <= |objects|
  {
    if n == 0 then true
    else
      AllArchived(bucket, sourcePrefix, blobs, objects, faults, n - 1) &&
      Step(bucket, sourcePrefix, blobs, objects[n - 1], faults[n - 1]).Archived?
  }

  /** AllArchived says, object by object, that each of the first `n` is archived. */
  lemma {:induction false} AllArchivedAt(bucket: string, sourcePrefix: string, blobs: map<Location, Bytes>,
                                         objects: seq<ObjectInfo>, faults: seq<Fault>, n: nat, j: nat)
    requires |faults| == |objects| && j < n <= |objects|
    requires AllArchived(bucket, sourcePrefix, blobs, objects, faults, n)
    ensures Step(bucket, sourcePrefix, blobs, objects[j], faults[j]).Archived?
  {
    if j < n - 1 {
      AllArchivedAt(bucket, sourcePrefix, blobs, objects, faults, n - 1, j);
    }
  }

  /** The entries of the first `n` objects, when each of them is archived. */
  function ArchivedEntries(bucket: string, sourcePrefix: string, blobs: map<Location, Bytes>,
                           objects: seq<ObjectInfo>, faults: seq<Fault>, n: nat): (es: seq<Entry>)
    requires |faults| == |objects| && n <= |objects|
    requires AllArchived(bucket, sourcePrefix, blobs, objects, faults, n)
    ensures |es| == n
  {
    if n == 0 then
      []
    else
      var done := ArchivedEntries(bucket, sourcePrefix, blobs, objects, faults, n - 1);
      done + [Step(bucket, sourcePrefix, blobs, objects[n - 1], faults[n - 1]).entry]
  }

  /** Position `j` of the archived entries is object `j`'s entry. */
  lemma {:induction false} ArchivedEntriesAt(bucket: string, sourcePrefix: string, blobs: map<Location, Bytes>,
                                             objects: seq<ObjectInfo>, faults: seq<Fault>, n: nat, j: nat)
    requires |faults| == |objects| && j < n <= |objects|
    requires AllArchived(bucket, sourcePrefix, blobs, objects, faults, n)
    ensures Step(bucket, sourcePrefix, blobs, objects[j], faults[j]).Archived?
    ensures ArchivedEntries(bucket, sourcePrefix, blobs, objects, faults, n)[j] ==
      Step(bucket, sourcePrefix, blobs, objects[j], faults[j]).entry
  {
    if j < n - 1 {
      ArchivedEntriesAt(bucket, sourcePrefix, blobs, objects, faults, n - 1, j);
    }
  }

  /** Once the first `n` objects are archived, the run is their entries followed by the run from `n` on. */
  lemma {:induction false} ArchiveAfterPrefix(bucket: string, sourcePrefix: string, blobs: map<Location, Bytes>,
                                              objects: seq<ObjectInfo>, faults: seq<Fault>, n: nat)
    requires |faults| == |objects| && n <= |objects|
    requires AllArchived(bucket, sourcePrefix, blobs, objects, faults, n)
    ensures var rest := Archive(bucket, sourcePrefix, blobs, objects, faults, n);
      Archive(bucket, sourcePrefix, blobs, objects, faults, 0) ==
        Progress(ArchivedEntries(bucket, sourcePrefix, blobs, objects, faults, n) + rest.entries,
                 n + rest.fetched, n + rest.opens, rest.failure)
  {
    if n == 0 {
      var rest := Archive(bucket, sourcePrefix, blobs, objects, faults, 0);
      assert ArchivedEntries(bucket, sourcePrefix, blobs, objects, faults, 0) + rest.entries == rest.entries;
    } else {
      ArchiveAfterPrefix(bucket, sourcePrefix, blobs, objects, faults, n - 1);
      ArchivePastArchived(bucket, sourcePrefix, blobs, objects, faults, n);
    }
  }

  /** The induction step of ArchiveAfterPrefix: the split after `n - 1` objects carries over to `n`. */
  lemma ArchivePastArchived(bucket: string, sourcePrefix: string, blobs: map<Location, Bytes>,
                            objects: seq<ObjectInfo>, faults: seq<Fault>, n: nat)
    requires |faults| == |objects| && 0 < n <= |objects|
    requires AllArchived(bucket, sourcePrefix, blobs, objects, faults, n)
    requires var rest := Archive(bucket, sourcePrefix, blobs, objects, faults, n - 1);
      Archive(bucket, sourcePrefix, blobs, objects, faults, 0) ==
        Progress(ArchivedEntries(bucket, sourcePrefix, blobs, objects, faults, n - 1) + rest.entries,
                 n - 1 + rest.fetched, n - 1 + rest.opens, rest.failure)
    ensures var rest := Archive(bucket, sourcePrefix, blobs, objects, faults, n);
      Archive(bucket, sourcePrefix, blobs, objects, faults, 0) ==
        Progress(ArchivedEntries(bucket, sourcePrefix, blobs, objects, faults, n) + rest.entries,
                 n + rest.fetched, n + rest.opens, rest.failure)
  {
    ArchiveUnfoldArchived(bucket, sourcePrefix, blobs, objects, faults, n);
    ProgressAppend(Archive(bucket, sourcePrefix, blobs, objects, faults, 0),
                   Archive(bucket, sourcePrefix, blobs, objects, faults, n - 1),
                   Archive(bucket, sourcePrefix, blobs, objects, faults, n),
                   ArchivedEntries(bucket, sourcePrefix, blobs, objects, faults, n - 1),
                   Step(bucket, sourcePrefix, blobs, objects[n - 1], faults[n - 1]).entry, n - 1);
  }

  /** Moving one archived entry from the remainder of a run onto its archived prefix. */
  lemma ProgressAppend(run: Progress, mid: Progress, rest: Progress, done: seq<Entry>, e: Entry, k: nat)
    requires run == Progress(done + mid.entries, k + mid.fetched, k + mid.opens, mid.failure)
    requires mid == Progress([e] + rest.entries, 1 + rest.fetched, 1 + rest.opens, rest.failure)
    ensures run == Progress((done + [e]) + rest.entries, k + 1 + rest.fetched, k + 1 + rest.opens, rest.failure)
  {
    assert done + ([e] + rest.entries) == (done + [e]) + rest.entries;
  }

  /** Past an archived object, the loop is that object's entry followed by the loop from the next one. */
  lemma ArchiveUnfoldArchived(bucket: string, sourcePrefix: string, blobs: map<Location, Bytes>,
                            objects: seq<ObjectInfo>, faults: seq<Fault>, n: nat)
    requires |faults| == |objects| && 0 < n <= |objects|
    requires AllArchived(bucket, sourcePrefix, blobs, objects, faults, n)
    ensures var e := Step(bucket, sourcePrefix, blobs, objects[n - 1], faults[n - 1]).entry;
      var rest := Archive(bucket, sourcePrefix, blobs, objects, faults, n);
      && Archive(bucket, sourcePrefix, blobs, objects, faults, n - 1) ==
           Progress([e] + rest.entries, 1 + rest.fetched, 1 + rest.opens, rest.failure)
      && ArchivedEntries(bucket, sourcePrefix, blobs, objects, faults, n) ==
           ArchivedEntries(bucket, sourcePrefix, blobs, objects, faults, n - 1) + [e]
  {
    assert Step(bucket, sourcePrefix, blobs, objects[n - 1], faults[n - 1]).Archived?;
  }

  /** When every object is archived, the run is their entries, every object fetched and opened, and no failure. */
  lemma ArchiveAllArchived(bucket: string, sourcePrefix: string, blobs: map<Location, Bytes>,
                           objects: seq<ObjectInfo>, faults: seq<Fault>)
    requires |faults| == |objects|
    requires AllArchived(bucket, sourcePrefix, blobs, objects, faults, |objects|)
    ensures Archive(bucket, sourcePrefix, blobs, objects, faults, 0) ==
      Progress(ArchivedEntries(bucket, sourcePrefix, blobs, objects, faults, |objects|), |objects|, |objects|, None)
  {
    ArchiveAfterPrefix(bucket, sourcePrefix, blobs, objects, faults, |objects|);
    var done := ArchivedEntries(bucket, sourcePrefix, blobs, objects, faults, |objects|);
    assert done + [] == done;
  }

  /** An archived object extends the archived prefix by its entry. */
  lemma ArchivedSnoc(bucket: string, sourcePrefix: string, blobs: map<Location, Bytes>,
                     objects: seq<ObjectInfo>, faults: seq<Fault>, n: nat)
    requires |faults| == |objects| && n < |objects|
    requires AllArchived(bucket, sourcePrefix, blobs, objects, faults, n)
    requires Step(bucket, sourcePrefix, blobs, objects[n], faults[n]).Archived?
    ensures AllArchived(bucket, sourcePrefix, blobs, objects, faults, n + 1)
    ensures ArchivedEntries(bucket, sourcePrefix, blobs, objects, faults, n + 1) ==
      ArchivedEntries(bucket, sourcePrefix, blobs, objects, faults, n) + [Step(bucket, sourcePrefix, blobs, objects[n], faults[n]).entry]
  {
  }

  /** The first failing object ends the run: its error, its partial entries, and nothing fetched after it. */
  lemma FailureEndsArchive(bucket: string, sourcePrefix: string, blobs: map<Location, Bytes>,
                           objects: seq<ObjectInfo>, faults: seq<Fault>, n: nat)
    requires |faults| == |objects| && n < |objects|
    requires AllArchived(bucket, sourcePrefix, blobs, objects, faults, n)
    requires Step(bucket, sourcePrefix, blobs, objects[n], faults[n]).Failed?
    ensures var s := Step(bucket, sourcePrefix, blobs, objects[n], faults[n]);
      Archive(bucket, sourcePrefix, blobs, objects, faults, 0) ==
        Progress(ArchivedEntries(bucket, sourcePrefix, blobs, objects, faults, n) + s.partial,
                 n + 1, n + (if s.err.GetFailed? then 0 else 1), Some(s.err))
  {
    ArchiveAfterPrefix(bucket, sourcePrefix, blobs, objects, faults, n);
  }

  /**
    One object processed after `i` archived ones: either it is archived too,
    or the whole loop ends with its error and what it left.
  */
  lemma ArchiveStepAt(bucket: string, sourcePrefix: string, blobs: map<Location, Bytes>,
                      objects: seq<ObjectInfo>, faults: seq<Fault>, i: nat,
                      err: Option<ArchiveError>, entries: seq<Entry>)
    requires |faults| == |objects| && i < |objects|
    requires AllArchived(bucket, sourcePrefix, blobs, objects, faults, i)
    requires var s := Step(bucket, sourcePrefix, blobs, objects[i], faults[i]);
      && err == (if s.Failed? then Some(s.err) else None)
      && entries == ArchivedEntries(bucket, sourcePrefix, blobs, objects, faults, i) +
                      (if s.Archived? then [s.entry] else s.partial)
    ensures err.None? ==>
      && AllArchived(bucket, sourcePrefix, blobs, objects, faults, i + 1)
      && entries == ArchivedEntries(bucket, sourcePrefix, blobs, objects, faults, i + 1)
    ensures err.Some? ==> var p := Archive(bucket, sourcePrefix, blobs, objects, faults, 0);
      && err == p.failure && p.fetched == i + 1 && entries == p.entries
      && p.opens == i + (if err.value.GetFailed? then 0 else 1)
  {
    if err.Some? {
      FailureEndsArchive(bucket, sourcePrefix, blobs, objects, faults, i);
    } else {
      ArchivedSnoc(bucket, sourcePrefix, blobs, objects, faults, i);
    }
  }

  /**
    Reader `r` is the one `client` handed out for `loc` at request number
    `request`, and it was closed exactly once, before the client received
    its next request.
  */
  ghost predicate ReaderReleased(r: S3Client.Reader, client: S3Client.Client, request: nat, loc: Location)
    reads r
  {
    && r.client == client && r.request == request
    && loc in client.blobs && r.body == client.blobs[loc]
    && !r.isOpen && r.closes == 1 && r.closedAfter == request + 1
  }

  /**
    The readers `issued[from..]` were handed out by `client` for the objects
    at the same positions, by request numbers `base` onwards, and each was
    released before the next request.
  */
  ghost predicate Released(issued: seq<S3Client.Reader>, from: nat, client: S3Client.Client, base: nat,
                           bucket: string, objects: seq<ObjectInfo>)
    reads issued
  {
    && from <= |issued| <= from + |objects|
    && forall j :: from <= j < |issued| ==>
      ReaderReleased(issued[j], client, base + (j - from), Location(bucket, objects[j - from].key))
  }

  /** A reader for the next object, released before the next request, extends the released readers. */
  lemma ReleasedSnoc(issued: seq<S3Client.Reader>, from: nat, r: S3Client.Reader, client: S3Client.Client, base: nat,
                     bucket: string, objects: seq<ObjectInfo>)
    requires Released(issued, from, client, base, bucket, objects) && |issued| < from + |objects|
    requires ReaderReleased(r, client, base + (|issued| - from), Location(bucket, objects[|issued| - from].key))
    ensures Released(issued + [r], from, client, base, bucket, objects)
  {
    var rs := issued + [r];
    forall j | from <= j < |rs|
      ensures ReaderReleased(rs[j], client, base + (j - from), Location(bucket, objects[j - from].key))
    {
      if j < |issued| {
        assert rs[j] == issued[j];
      }
    }
  }

  /**
    io.Copy from an open body into the current entry of an open writer:
    `cut` makes the read side fail part-way, and a directory entry makes the
    write side refuse any bytes. The body is marked as read from.
  */
  method Copy(dst: Writer, src: S3Client.Reader, cut: Option<nat>) returns (ok: bool)
    requires dst.entries != [] && !dst.closed && src.isOpen
    modifies dst`entries, src`copied
    ensures src.copied
    ensures var last := old(dst.entries)[|old(dst.entries)| - 1];
      var sent := Delivered(src.body, cut);
      && ok == (cut.None? && Accepts(last, sent))
      && dst.entries == old(dst.entries)[..|old(dst.entries)| - 1] +
           [if Accepts(last, sent) then last.(data := last.data + sent) else last]
  {
    var wrote := dst.Write(Delivered(src.body, cut));
    src.copied := true;
    ok := cut.None? && wrote;
  }

  /**
    One pass of CreateArchive's loop body for `obj`: fetch, name, create the
    header, copy, release the reader. `reader` is the reader it opened, if
    the fetch succeeded.
  */
  method ArchiveObject(zw: Writer, client: S3Client.Client, bucket: string, sourcePrefix: string,
                       obj: ObjectInfo, fault: Fault)
    returns (err: Option<ArchiveError>, ghost reader: Option<S3Client.Reader>)
    requires !zw.closed
    modifies zw`entries, client
    ensures var s := Step(bucket, sourcePrefix, client.blobs, obj, fault);
      && err == (if s.Failed? then Some(s.err) else None)
      && zw.entries == old(zw.entries) + (if s.Archived? then [s.entry] else s.partial)
      && (reader.Some? <==> !(err.Some? && err.value.GetFailed?))
    ensures client.fetched == old(client.fetched) + [Location(bucket, obj.key)]
    ensures client.issued == old(client.issued) + (if reader.Some? then [reader.value] else [])
    ensures reader.Some? ==>
      && fresh(reader.value)
      && ReaderReleased(reader.value, client, |old(client.fetched)|, Location(bucket, obj.key))
      && (reader.value.copied <==> err != Some(HeaderFailed))
  {
    var got := client.GetObject(bucket, obj.key, fault.GetFails?);
    if got.None? {
      return Some(GetFailed(obj.key)), None;
    }
    var r := got.value;
    reader := Some(r);
    var zipPath := EntryName(obj.key, sourcePrefix);
    var ok := zw.CreateHeader(zipPath, Deflate, fault.HeaderFails?);
    if !ok {
      r.Close();
      return Some(HeaderFailed), reader;
    }
    ghost var before := zw.entries;
    ok := Copy(zw, r, CopyCut(fault));
    r.Close();
    err := if ok then None else Some(CopyFailed);
    ghost var header := Entry(zipPath, HeaderMethod(zipPath, Deflate), []);
    ghost var sent := Delivered(r.body, CopyCut(fault));
    assert before[..|before| - 1] == old(zw.entries) && before[|before| - 1] == header;
    assert header.(data := [] + sent) == header.(data := sent);
  }

  /**
    The loop body at position `i`, with the loop's bookkeeping: given that
    the first `i` objects went through, either the first `i + 1` did, or the
    whole loop ends here with the outcome Archive predicts. `fetched0` is
    the client's request log before the loop and `issued0` the length of its
    reader log then.
  */
  method ArchiveAt(zw: Writer, client: S3Client.Client, bucket: string, sourcePrefix: string,
                   objects: seq<ObjectInfo>, faults: seq<Fault>, i: nat,
                   ghost fetched0: seq<Location>, ghost issued0: nat)
    returns (err: Option<ArchiveError>)
    requires |faults| == |objects| && i < |objects| && !zw.closed
    requires AllArchived(bucket, sourcePrefix, client.blobs, objects, faults, i)
    requires zw.entries == ArchivedEntries(bucket, sourcePrefix, client.blobs, objects, faults, i)
    requires client.fetched == fetched0 + LocationsOf(bucket, objects, i)
    requires |client.issued| == issued0 + i
    requires Released(client.issued, issued0, client, |fetched0|, bucket, objects)
    modifies zw`entries, client
    ensures client.fetched == fetched0 + LocationsOf(bucket, objects, i + 1)
    ensures Released(client.issued, issued0, client, |fetched0|, bucket, objects)
    ensures err.None? ==>
      && AllArchived(bucket, sourcePrefix, client.blobs, objects, faults, i + 1)
      && zw.entries == ArchivedEntries(bucket, sourcePrefix, client.blobs, objects, faults, i + 1)
      && |client.issued| == issued0 + i + 1
    ensures err.Some? ==> var p := Archive(bucket, sourcePrefix, client.blobs, objects, faults, 0);
      && err == p.failure && p.fetched == i + 1
      && zw.entries == p.entries
      && |client.issued| == issued0 + p.opens
  {
    ghost var issued := client.issued;
    ghost var reader;
    err, reader := ArchiveObject(zw, client, bucket, sourcePrefix, objects[i], faults[i]);
    ArchiveStepAt(bucket, sourcePrefix, client.blobs, objects, faults, i, err, zw.entries);
    LocationsOfSnoc(fetched0, bucket, objects, i);
    if reader.Some? {
      ReleasedSnoc(issued, issued0, reader.value, client, |fetched0|, bucket, objects);
    }
  }

  /**
    The loop of CreateArchive: processes `objects` in order into `zw` and
    stops at the first failure, which it returns.
  */
  method ArchiveObjects(zw: Writer, client: S3Client.Client, bucket: string, sourcePrefix: string,
                        objects: seq<ObjectInfo>, faults: seq<Fault>)
    returns (failure: Option<ArchiveError>)
    requires |faults| == |objects| && zw.entries == [] && !zw.closed
    modifies zw`entries, client
    ensures var p := Archive(bucket, sourcePrefix, client.blobs, objects, faults, 0);
      && zw.entries == p.entries
      && failure == p.failure
      && client.fetched == old(client.fetched) + LocationsOf(bucket, objects, p.fetched)
      && |client.issued| == |old(client.issued)| + p.opens
    ensures Released(client.issued, |old(client.issued)|, client, |old(client.fetched)|, bucket, objects)
  {
    ghost var fetched0, issued0 := client.fetched, |client.issued|;
    assert fetched0 + LocationsOf(bucket, objects, 0) == fetched0;
    var i := 0;
    while i < |objects|
      invariant 0 <= i <= |objects|
      invariant AllArchived(bucket, sourcePrefix, client.blobs, objects, faults, i)
      invariant zw.entries == ArchivedEntries(bucket, sourcePrefix, client.blobs, objects, faults, i)
      invariant client.fetched == fetched0 + LocationsOf(bucket, objects, i)
      invariant |client.issued| == issued0 + i
      invariant Released(client.issued, issued0, client, |fetched0|, bucket, objects)
    {
      var stepErr;
      stepErr := ArchiveAt(zw, client, bucket, sourcePrefix, objects, faults, i, fetched0, issued0);
      if stepErr.Some? {
        return stepErr;
      }
      i := i + 1;
    }
    ArchiveAllArchived(bucket, sourcePrefix, client.blobs, objects, faults);
    failure := None;
  }

  /**
    Writes the objects into a new zip archive whose Deflate entries use the
    fastest level, then finalizes it if every object went through. The
    writer is returned so that what reached the output is visible.
  */
  method CreateArchive(client: S3Client.Client, bucket: string, sourcePrefix: string,
                       objects: seq<ObjectInfo>, faults: seq<Fault>, closeFails: bool)
    returns (zw: Writer, err: Option<ArchiveError>)
    requires |faults| == |objects|
    modifies client
    ensures fresh(zw) && zw.deflateLevel == BestSpeed
    ensures var run := ExpectedRun(bucket, sourcePrefix, client.blobs, objects, faults, closeFails);
      && zw.entries == run.entries
      && err == run.err
      && zw.closed == run.finalized
      && zw.closeCalls == (if run.finalized then 1 else 0)
      && client.fetched == old(client.fetched) + LocationsOf(bucket, objects, run.fetched)
      && |client.issued| == |old(client.issued)| + run.opens
    ensures Released(client.issued, |old(client.issued)|, client, |old(client.fetched)|, bucket, objects)
  {
    zw := new Writer();
    zw.RegisterDeflate(BestSpeed);
    var failure;
    failure := ArchiveObjects(zw, client, bucket, sourcePrefix, objects, faults);
    if failure.Some? {
      return zw, failure;
    }
    var ok := zw.Close(closeFails);
    err := if ok then None else Some(CloseFailed);
  }
}
