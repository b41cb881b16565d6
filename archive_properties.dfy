/**
  What the specification of CreateArchive (Step, Archive, ExpectedRun)
  promises about a run: which outcome each failure point leads to, that
  entries follow the listing one per object, that nothing after the first
  failing object is touched, and that finalization happens exactly when every
  object went through. CreateArchive is proved to behave as ExpectedRun says,
  so these are facts about CreateArchive.
*/
module ArchiveProperties {
  import opened Objects
  import opened EntryNames
  import opened Zip
  import opened Archiver

  /**
    Each failure point of one object, and the absence of any, leads to its
    own outcome. An object whose name makes a directory entry cannot have
    content: copying any byte into it fails.
  */
  lemma StepOutcomes(bucket: string, sourcePrefix: string, blobs: map<Location, Bytes>, obj: ObjectInfo, fault: Fault)
    ensures var s := Step(bucket, sourcePrefix, blobs, obj, fault);
      var loc := Location(bucket, obj.key);
      var name := EntryName(obj.key, sourcePrefix);
      && (s.Archived? <==> fault.Healthy? && loc in blobs && (!IsDirectory(name) || blobs[loc] == []))
      && (s.Failed? && s.err == GetFailed(obj.key) <==> fault.GetFails? || loc !in blobs)
      && (s.Failed? && s.err == HeaderFailed <==> fault.HeaderFails? && loc in blobs)
      && (s.Failed? && s.err == CopyFailed <==>
            loc in blobs && (fault.CopyFails? || (fault.Healthy? && IsDirectory(name) && blobs[loc] != [])))
      && (s.Failed? ==> s.err.GetFailed? || s.err == HeaderFailed || s.err == CopyFailed)
      && (s.Archived? ==> s.entry == Entry(name, HeaderMethod(name, Deflate), blobs[loc]))
      // only a failed copy leaves something behind: its entry, with the bytes delivered so far
      && (s.Failed? && s.err != CopyFailed ==> s.partial == [])
      && (s.Failed? && s.err == CopyFailed ==>
            s.partial == [Entry(name, HeaderMethod(name, Deflate),
                                if IsDirectory(name) then [] else Delivered(blobs[loc], CopyCut(fault)))])
  {
  }

  /**
    Counting the loop from position `from`: every fetched object opened a
    reader unless its fetch failed, and every fetched object left an entry
    unless its fetch or its header failed; a run without failure fetched
    every remaining object.
  */
  lemma {:induction false} ArchiveCounts(bucket: string, sourcePrefix: string, blobs: map<Location, Bytes>,
                                         objects: seq<ObjectInfo>, faults: seq<Fault>, from: nat)
    requires |faults| == |objects| && from <= |objects|
    ensures var p := Archive(bucket, sourcePrefix, blobs, objects, faults, from);
      && p.opens + (if p.failure.Some? && p.failure.value.GetFailed? then 1 else 0) == p.fetched
      && |p.entries| + (if p.failure.Some? && p.failure.value != CopyFailed then 1 else 0) == p.fetched
      && (p.failure.None? ==> p.fetched == |objects| - from)
      && (p.failure.Some? ==> 1 <= p.fetched && p.failure != Some(CloseFailed))
    decreases |objects| - from
  {
    if from < |objects| {
      StepOutcomes(bucket, sourcePrefix, blobs, objects[from], faults[from]);
      ArchiveCounts(bucket, sourcePrefix, blobs, objects, faults, from + 1);
    }
  }

  /**
    Entry `j` of the loop from position `from` belongs to object `from + j`:
    its name is derived from that object's key, it uses Deflate (Store for
    a directory name), and its
    bytes are the object's content, cut short only for the last entry of a
    run whose copy failed.
  */
  lemma {:induction false} ArchiveEntryAt(bucket: string, sourcePrefix: string, blobs: map<Location, Bytes>,
                                          objects: seq<ObjectInfo>, faults: seq<Fault>, from: nat, j: nat)
    requires |faults| == |objects| && from <= |objects|
    requires j < |Archive(bucket, sourcePrefix, blobs, objects, faults, from).entries|
    ensures from + j < |objects|
    ensures var p := Archive(bucket, sourcePrefix, blobs, objects, faults, from);
      var loc := Location(bucket, objects[from + j].key);
      && loc in blobs
      && p.entries[j].name == EntryName(objects[from + j].key, sourcePrefix)
      && p.entries[j].compression == HeaderMethod(p.entries[j].name, Deflate)
      && |p.entries[j].data| <= |blobs[loc]| && blobs[loc][..|p.entries[j].data|] == p.entries[j].data
      && (p.failure != Some(CopyFailed) || j + 1 < |p.entries| ==> p.entries[j].data == blobs[loc])
    decreases |objects| - from
  {
    var s := Step(bucket, sourcePrefix, blobs, objects[from], faults[from]);
    StepOutcomes(bucket, sourcePrefix, blobs, objects[from], faults[from]);
    if s.Archived? && j > 0 {
      ArchiveEntryAt(bucket, sourcePrefix, blobs, objects, faults, from + 1, j - 1);
    }
  }

  /** If some of the first `n` objects is not archived, there is a first one that fails. */
  lemma {:induction false} FirstFailure(bucket: string, sourcePrefix: string, blobs: map<Location, Bytes>,
                                        objects: seq<ObjectInfo>, faults: seq<Fault>, n: nat)
      returns (k: nat)
    requires |faults| == |objects| && n <= |objects|
    requires !AllArchived(bucket, sourcePrefix, blobs, objects, faults, n)
    ensures k < n
    ensures AllArchived(bucket, sourcePrefix, blobs, objects, faults, k)
    ensures Step(bucket, sourcePrefix, blobs, objects[k], faults[k]).Failed?
  {
    if AllArchived(bucket, sourcePrefix, blobs, objects, faults, n - 1) {
      k := n - 1;
    } else {
      k := FirstFailure(bucket, sourcePrefix, blobs, objects, faults, n - 1);
    }
  }

  /**
    The archive is finalized exactly when every object is archived, and the
    call succeeds exactly when, in addition, finalization succeeds; a
    finalization failure is what the call then reports.
  */
  lemma FinalizedIffAllArchived(bucket: string, sourcePrefix: string, blobs: map<Location, Bytes>,
                                objects: seq<ObjectInfo>, faults: seq<Fault>, closeFails: bool)
    requires |faults| == |objects|
    ensures var run := ExpectedRun(bucket, sourcePrefix, blobs, objects, faults, closeFails);
      && (run.finalized <==> AllArchived(bucket, sourcePrefix, blobs, objects, faults, |objects|))
      && (run.err.None? <==> AllArchived(bucket, sourcePrefix, blobs, objects, faults, |objects|) && !closeFails)
      && (run.finalized ==> run.err == if closeFails then Some(CloseFailed) else None)
      && (run.finalized ==> run.fetched == run.opens == |run.entries| == |objects|)
  {
    var n := |objects|;
    ArchiveCounts(bucket, sourcePrefix, blobs, objects, faults, 0);
    if AllArchived(bucket, sourcePrefix, blobs, objects, faults, n) {
      ArchiveAfterPrefix(bucket, sourcePrefix, blobs, objects, faults, n);
    } else {
      var k := FirstFailure(bucket, sourcePrefix, blobs, objects, faults, n);
      FailureEndsArchive(bucket, sourcePrefix, blobs, objects, faults, k);
    }
  }

  /**
    The first failing object decides the run: its error is returned, objects
    up to and including it and no later one are fetched, the archive holds
    the earlier objects' entries followed by what the failure left, and the
    archive is not finalized. A failed fetch opens no reader; a failed header
    or copy opens one.
  */
  lemma FirstFailureDecides(bucket: string, sourcePrefix: string, blobs: map<Location, Bytes>,
                            objects: seq<ObjectInfo>, faults: seq<Fault>, closeFails: bool, k: nat)
    requires |faults| == |objects| && k < |objects|
    requires AllArchived(bucket, sourcePrefix, blobs, objects, faults, k)
    requires Step(bucket, sourcePrefix, blobs, objects[k], faults[k]).Failed?
    ensures var s := Step(bucket, sourcePrefix, blobs, objects[k], faults[k]);
      ExpectedRun(bucket, sourcePrefix, blobs, objects, faults, closeFails) ==
        Run(ArchivedEntries(bucket, sourcePrefix, blobs, objects, faults, k) + s.partial,
            k + 1, if s.err.GetFailed? then k else k + 1, false, Some(s.err))
  {
    FailureEndsArchive(bucket, sourcePrefix, blobs, objects, faults, k);
  }

  /**
    A failed fetch of object `k` returns at once: its error names the key,
    no entry exists for it or any later object, and it opens no reader.
  */
  lemma GetFailureStops(bucket: string, sourcePrefix: string, blobs: map<Location, Bytes>,
                        objects: seq<ObjectInfo>, faults: seq<Fault>, closeFails: bool, k: nat)
    requires |faults| == |objects| && k < |objects|
    requires AllArchived(bucket, sourcePrefix, blobs, objects, faults, k)
    requires faults[k].GetFails? || Location(bucket, objects[k].key) !in blobs
    ensures var run := ExpectedRun(bucket, sourcePrefix, blobs, objects, faults, closeFails);
      && run.err == Some(GetFailed(objects[k].key))
      && run.entries == ArchivedEntries(bucket, sourcePrefix, blobs, objects, faults, k)
      && run.fetched == k + 1 && run.opens == k
      && !run.finalized
  {
    StepOutcomes(bucket, sourcePrefix, blobs, objects[k], faults[k]);
    FirstFailureDecides(bucket, sourcePrefix, blobs, objects, faults, closeFails, k);
  }

  /**
    A failed header for object `k` ends the run: no entry for it or any later
    object, its reader was opened (and, by CreateArchive, closed), nothing
    later is fetched.
  */
  lemma HeaderFailureStops(bucket: string, sourcePrefix: string, blobs: map<Location, Bytes>,
                           objects: seq<ObjectInfo>, faults: seq<Fault>, closeFails: bool, k: nat)
    requires |faults| == |objects| && k < |objects|
    requires AllArchived(bucket, sourcePrefix, blobs, objects, faults, k)
    requires faults[k].HeaderFails? && Location(bucket, objects[k].key) in blobs
    ensures var run := ExpectedRun(bucket, sourcePrefix, blobs, objects, faults, closeFails);
      && run.err == Some(HeaderFailed)
      && run.entries == ArchivedEntries(bucket, sourcePrefix, blobs, objects, faults, k)
      && run.fetched == k + 1 && run.opens == k + 1
      && !run.finalized
  {
    StepOutcomes(bucket, sourcePrefix, blobs, objects[k], faults[k]);
    FirstFailureDecides(bucket, sourcePrefix, blobs, objects, faults, closeFails, k);
  }

  /**
    A failed copy for object `k` ends the run: its entry stays in the archive
    with the bytes delivered before the failure, and nothing later is
    fetched.
  */
  lemma CopyFailureStops(bucket: string, sourcePrefix: string, blobs: map<Location, Bytes>,
                         objects: seq<ObjectInfo>, faults: seq<Fault>, closeFails: bool, k: nat)
    requires |faults| == |objects| && k < |objects|
    requires AllArchived(bucket, sourcePrefix, blobs, objects, faults, k)
    requires faults[k].CopyFails? && Location(bucket, objects[k].key) in blobs
    ensures var run := ExpectedRun(bucket, sourcePrefix, blobs, objects, faults, closeFails);
      var loc := Location(bucket, objects[k].key);
      && run.err == Some(CopyFailed)
      && run.entries == ArchivedEntries(bucket, sourcePrefix, blobs, objects, faults, k) +
           [var name := EntryName(objects[k].key, sourcePrefix);
            Entry(name, HeaderMethod(name, Deflate), if IsDirectory(name) then [] else Delivered(blobs[loc], Some(faults[k].delivered)))]
      && run.fetched == k + 1 && run.opens == k + 1
      && !run.finalized
  {
    StepOutcomes(bucket, sourcePrefix, blobs, objects[k], faults[k]);
    FirstFailureDecides(bucket, sourcePrefix, blobs, objects, faults, closeFails, k);
  }

  /**
    A key that names a folder under the prefix ("a/b/c/" under "a/b/")
    becomes a directory entry "c/" recorded with Store instead of Deflate.
  */
  lemma FolderMarkerExample()
    ensures EntryName("a/b/c/", "a/b/") == "c/"
    ensures IsDirectory("c/") && HeaderMethod("c/", Deflate) == Store
  {
    assert "a/b/c/"[..4] == "a/b/";
    assert "a/b/c/"[4..] == "c/";
    assert "c/"[..1][0] != "/"[0];
  }

  /**
    A folder-marker object with content, fetched with no call failing,
    ends the run with a copy error: its directory entry stays, empty, and
    nothing later is fetched.
  */
  lemma DirectoryWithContentFails(bucket: string, sourcePrefix: string, blobs: map<Location, Bytes>,
                                  objects: seq<ObjectInfo>, faults: seq<Fault>, closeFails: bool, k: nat)
    requires |faults| == |objects| && k < |objects|
    requires AllArchived(bucket, sourcePrefix, blobs, objects, faults, k)
    requires faults[k].Healthy? && Location(bucket, objects[k].key) in blobs
    requires IsDirectory(EntryName(objects[k].key, sourcePrefix)) && blobs[Location(bucket, objects[k].key)] != []
    ensures var run := ExpectedRun(bucket, sourcePrefix, blobs, objects, faults, closeFails);
      && run.err == Some(CopyFailed)
      && run.entries == ArchivedEntries(bucket, sourcePrefix, blobs, objects, faults, k) +
           [Entry(EntryName(objects[k].key, sourcePrefix), Store, [])]
      && run.fetched == k + 1 && run.opens == k + 1
      && !run.finalized
  {
    StepOutcomes(bucket, sourcePrefix, blobs, objects[k], faults[k]);
    FirstFailureDecides(bucket, sourcePrefix, blobs, objects, faults, closeFails, k);
  }

  /** When nothing goes wrong for any object, each of the first `n` objects is archived. */
  lemma {:induction false} HealthyPrefixArchived(bucket: string, sourcePrefix: string, blobs: map<Location, Bytes>,
                                                 objects: seq<ObjectInfo>, faults: seq<Fault>, n: nat)
    requires |faults| == |objects| && n <= |objects|
    // nothing goes wrong for any object: it is present, every call for it
    // succeeds, and it has no content if its name makes a directory entry
    requires forall j :: 0 <= j < |objects| ==>
      && faults[j].Healthy?
      && Location(bucket, objects[j].key) in blobs
      && (IsDirectory(EntryName(objects[j].key, sourcePrefix)) ==> blobs[Location(bucket, objects[j].key)] == [])
    ensures AllArchived(bucket, sourcePrefix, blobs, objects, faults, n)
  {
    if n > 0 {
      HealthyPrefixArchived(bucket, sourcePrefix, blobs, objects, faults, n - 1);
      StepOutcomes(bucket, sourcePrefix, blobs, objects[n - 1], faults[n - 1]);
    }
  }

  /**
    A run without failures: one entry per object, in listing order, named
    from the key, using Deflate (Store for a directory name) and holding the
    object's full content; every object is fetched and its reader opened;
    the archive is finalized, and the call fails only if finalization does.
  */
  lemma HealthyRun(bucket: string, sourcePrefix: string, blobs: map<Location, Bytes>,
                   objects: seq<ObjectInfo>, faults: seq<Fault>, closeFails: bool)
    requires |faults| == |objects|
    // nothing goes wrong for any object: it is present, every call for it
    // succeeds, and it has no content if its name makes a directory entry
    requires forall j :: 0 <= j < |objects| ==>
      && faults[j].Healthy?
      && Location(bucket, objects[j].key) in blobs
      && (IsDirectory(EntryName(objects[j].key, sourcePrefix)) ==> blobs[Location(bucket, objects[j].key)] == [])
    ensures var run := ExpectedRun(bucket, sourcePrefix, blobs, objects, faults, closeFails);
      && run.finalized
      && run.err == (if closeFails then Some(CloseFailed) else None)
      && run.fetched == run.opens == |run.entries| == |objects|
      && forall j :: 0 <= j < |objects| ==>
           var name := EntryName(objects[j].key, sourcePrefix);
           run.entries[j] == Entry(name, HeaderMethod(name, Deflate), blobs[Location(bucket, objects[j].key)])
  {
    var n := |objects|;
    HealthyPrefixArchived(bucket, sourcePrefix, blobs, objects, faults, n);
    ArchiveAfterPrefix(bucket, sourcePrefix, blobs, objects, faults, n);
    var entries := ArchivedEntries(bucket, sourcePrefix, blobs, objects, faults, n);
    assert entries + [] == entries;
    forall j | 0 <= j < n
      ensures var name := EntryName(objects[j].key, sourcePrefix);
        entries[j] == Entry(name, HeaderMethod(name, Deflate), blobs[Location(bucket, objects[j].key)])
    {
      ArchivedEntriesAt(bucket, sourcePrefix, blobs, objects, faults, n, j);
      StepOutcomes(bucket, sourcePrefix, blobs, objects[j], faults[j]);
    }
  }

  /**
    Every entry of any run, failed or not, belongs to the object at the same
    position of the listing: entries follow the listing, one per object.
  */
  lemma RunEntriesFollowListing(bucket: string, sourcePrefix: string, blobs: map<Location, Bytes>,
                                objects: seq<ObjectInfo>, faults: seq<Fault>, closeFails: bool, j: nat)
    requires |faults| == |objects|
    requires j < |ExpectedRun(bucket, sourcePrefix, blobs, objects, faults, closeFails).entries|
    ensures j < |objects|
    ensures var run := ExpectedRun(bucket, sourcePrefix, blobs, objects, faults, closeFails);
      var loc := Location(bucket, objects[j].key);
      && loc in blobs
      && run.entries[j].name == EntryName(objects[j].key, sourcePrefix)
      && run.entries[j].compression == HeaderMethod(run.entries[j].name, Deflate)
      && run.entries[j].data <= blobs[loc]
      && (run.err != Some(CopyFailed) || j + 1 < |run.entries| ==> run.entries[j].data == blobs[loc])
  {
    var run := ExpectedRun(bucket, sourcePrefix, blobs, objects, faults, closeFails);
    ArchiveEntryAt(bucket, sourcePrefix, blobs, objects, faults, 0, j);
    ArchiveCounts(bucket, sourcePrefix, blobs, objects, faults, 0);
    var d := run.entries[j].data;
    var b := blobs[Location(bucket, objects[j].key)];
    assert b[..|d|] == d;
  }
}
