/**
  The zip writer as the archiver uses it: a sequence of entries, each a name,
  a compression method and the uncompressed bytes written into it, and a
  closed flag. The container's byte layout and the compressor are not part
  of this model. Whether CreateHeader or Close fails is an input of the call.
*/
module Zip {
  import opened Objects

  /** The zip format's identifiers of the Store and Deflate compression methods. */
  const Store: nat := 0
  const Deflate: nat := 8

  /** Deflate levels, as Go's compress/flate numbers them. */
  const BestSpeed: int := 1
  /** The level archive/zip's own Deflate compressor uses until another is registered. */
  const ZipDefaultLevel: int := 5

  datatype Entry = Entry(name: string, compression: nat, data: Bytes)

  /** Go's archive/zip treats a header whose name ends in '/' as a directory. */
  predicate IsDirectory(name: string) {
    |name| > 0 && name[|name| - 1] == '/'
  }

  /** The method a header is recorded with: a directory is always stored, whatever was asked for. */
  function HeaderMethod(name: string, requested: nat): (m: nat)
    ensures IsDirectory(name) ==> m == Store
    ensures !IsDirectory(name) ==> m == requested
  {
    if IsDirectory(name) then Store else requested
  }

  /** Whether an entry accepts `data`: a directory accepts nothing but an empty write. */
  predicate Accepts(e: Entry, data: Bytes) {
    !IsDirectory(e.name) || data == []
  }

  class Writer {
    var entries: seq<Entry>
    var deflateLevel: int
    /**
      Close was called. A zip stream is finalized by Close, so the model
      requires that no header is created and nothing is written afterwards.
    */
    var closed: bool
    ghost var closeCalls: nat

    constructor ()
      ensures entries == [] && deflateLevel == ZipDefaultLevel
      ensures !closed && closeCalls == 0
    {
      entries, deflateLevel, closed := [], ZipDefaultLevel, false;
      closeCalls := 0;
    }

    /**
      Chooses the level Deflate entries are compressed with. archive/zip picks
      an entry's compressor when the entry is created, so the level holds for
      every entry only when it is chosen before the first one.
    */
    method RegisterDeflate(level: int)
      requires entries == [] && !closed
      modifies this
      ensures deflateLevel == level
      ensures entries == old(entries) && closed == old(closed) && closeCalls == old(closeCalls)
    {
      deflateLevel := level;
    }

    /**
      Starts a new, empty entry, stored rather than compressed when its name
      makes it a directory; on failure nothing is added.
    */
    method CreateHeader(name: string, compression: nat, fails: bool) returns (ok: bool)
      requires !closed
      modifies this`entries
      ensures ok == !fails
      ensures entries == if ok then old(entries) + [Entry(name, HeaderMethod(name, compression), [])] else old(entries)
    {
      ok := !fails;
      if ok {
        entries := entries + [Entry(name, HeaderMethod(name, compression), [])];
      }
    }

    /**
      Appends bytes to the body of the most recent entry. A directory entry
      refuses a non-empty write ("zip: write to directory") and stays as it is.
    */
    method Write(data: Bytes) returns (ok: bool)
      requires entries != [] && !closed
      modifies this`entries
      ensures var last := old(entries)[|old(entries)| - 1];
        && ok == Accepts(last, data)
        && entries == old(entries)[..|old(entries)| - 1] + [if ok then last.(data := last.data + data) else last]
    {
      var last := entries[|entries| - 1];
      ok := Accepts(last, data);
      if ok {
        entries := entries[..|entries| - 1] + [last.(data := last.data + data)];
      } else {
        assert entries == entries[..|entries| - 1] + [last];
      }
    }

    /** Finalizes the archive; `closed` records that Close was called, whether or not it failed. */
    method Close(fails: bool) returns (ok: bool)
      modifies this
      ensures ok == !fails
      ensures closed && closeCalls == old(closeCalls) + 1
      ensures entries == old(entries) && deflateLevel == old(deflateLevel)
    {
      ok := !fails;
      closed := true;
      closeCalls := closeCalls + 1;
    }
  }
}
