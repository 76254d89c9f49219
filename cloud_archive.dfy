/**
 * Downloading a zipped dump (ufload/cloud.py): `StatusFile` copies the download into a
 * spooled temporary file and reports progress every ten percent; `openDumpInZip`
 * accepts an archive only when it holds exactly one entry.
 */
module CloudArchive {
  import opened Wrappers
  import opened Bytes

  /** One entry of the zip archive's table of contents: its name and uncompressed size. */
  datatype ZipEntry = ZipEntry(name: string, size: nat)

  /** The dump inside an accepted archive: `z.open(names[0])` and its `file_size`. */
  datatype Dump = Dump(name: string, size: nat)

  /**
   * A file-like object that forwards every `write` to `fout` and calls `progress(pct)`
   * when the percentage of the announced size goes past the next ten-percent mark.
   */
  class StatusFile {
    /** The chunks forwarded to `fout`, in order. */
    var written: seq<seq<byte>>
    /** The percentages passed to the progress callback, in order. */
    var reported: seq<int>
    /** The announced size (`self.tot`), `None` until `setSize`. */
    var tot: Option<nat>
    var next: int
    var n: int

    /** Progress only goes up, and every report stays below the next mark, a multiple of ten. */
    ghost predicate Valid()
      reads this
    {
      && next >= 10 && next % 10 == 0
      && (forall i, j :: 0 <= i < j < |reported| ==> reported[i] < reported[j])
      && (forall i :: 0 <= i < |reported| ==> reported[i] < next)
    }

    constructor ()
      ensures Valid()
      ensures written == [] && reported == [] && tot == None && next == 10 && n == 0
    {
      written := [];
      reported := [];
      tot := None;
      next := 10;
      n := 0;
    }

    method SetSize(sz: nat)
      modifies this`tot
      ensures tot == Some(sz)
    {
      tot := Some(sz);
    }

    /**
     * `write(data)`. With the size set to zero the percentage divides by zero and the
     * call raises (`raised`) before forwarding anything.
     */
    method Write(data: seq<byte>) returns (raised: bool)
      requires Valid()
      modifies this`n, this`next, this`reported, this`written
      ensures Valid()
      ensures n == old(n) + |data|
      ensures raised <==> tot == Some(0)
      ensures written == if raised then old(written) else old(written) + [data]
      ensures !raised && old(n) == |Flatten(old(written))| ==> n == |Flatten(written)|
      ensures tot.None? || raised ==> reported == old(reported) && next == old(next)
      ensures tot.Some? && !raised ==>
                var pct := n * 100 / tot.value;
                if pct > old(next) then reported == old(reported) + [pct] && next == pct / 10 * 10 + 10
                else reported == old(reported) && next == old(next)
    {
      n := n + |data|;
      if tot.Some? {
        if tot.value == 0 {
          return true;
        }
        var pct := n * 100 / tot.value;
        if pct > next {
          MarkAbove(pct);
          next := pct / 10 * 10 + 10;
          reported := reported + [pct];
        }
      }
      FlattenSnoc(written, data);
      written := written + [data];
      return false;
    }
  }

  /** The mark after a percentage is the next multiple of ten above it. */
  lemma MarkAbove(pct: int)
    requires pct >= 10
    ensures var m := pct / 10 * 10 + 10; m > pct && m >= 10 && m % 10 == 0
  {
  }

  /**
   * `openDumpInZip` as written: both rejecting branches format a message with the name
   * `fn`, which the function never defines, so they raise `NameError` instead of
   * returning `None`.
   */
  function OpenDumpInZipAsWritten(entries: seq<ZipEntry>): (r: Result<Dump, string>)
    ensures r.Ok? <==> |entries| == 1
  {
    if |entries| == 0 then Err("NameError: fn")
    else if |entries| != 1 then Err("NameError: fn")
    else Ok(Dump(entries[0].name, entries[0].size))
  }

  /** The reject paths of the code as written raise instead of reporting "no dump". */
  lemma RejectPathsRaise()
    ensures OpenDumpInZipAsWritten([]).Err?
    ensures OpenDumpInZipAsWritten([ZipEntry("a.dump", 1), ZipEntry("b.dump", 2)]).Err?
  {
  }

  /** The intended entry-count rule: exactly one entry is a dump, anything else is none. */
  function ValidateArchive(entries: seq<ZipEntry>): (r: Option<Dump>)
    ensures r.Some? <==> |entries| == 1
    ensures r.Some? ==> r.value.name == entries[0].name && r.value.size == entries[0].size
  {
    if |entries| == 0 then None
    else if |entries| != 1 then None
    else Some(Dump(entries[0].name, entries[0].size))
  }

  /** Where the code as written returns a dump, the intended rule returns the same one. */
  lemma ValidateArchiveAgrees(entries: seq<ZipEntry>)
    ensures OpenDumpInZipAsWritten(entries).Ok? ==> ValidateArchive(entries) == Some(OpenDumpInZipAsWritten(entries).value)
    ensures OpenDumpInZipAsWritten(entries).Err? ==> ValidateArchive(entries) == None
  {
  }

  /** A zip archive on the server as `openDumpInZip` meets it: the HEAD length, the downloaded chunks, the entries. */
  datatype Remote = Remote(contentLength: Option<nat>, download: seq<seq<byte>>, entries: seq<ZipEntry>)

  /** What `openDumpInZip` gives for an archive: the one dump, or the exception that escapes it. */
  function DumpInZip(z: Remote): Result<Dump, string>
  {
    if z.contentLength == Some(0) && z.download != [] then Err("ZeroDivisionError")
    else OpenDumpInZipAsWritten(z.entries)
  }

  /**
   * `openDumpInZip(path, ...)` with the network abstracted: `contentLength` is the HEAD
   * response's `Content-Length`, `download` the chunks `dav.download` writes into the
   * `StatusFile`, `entries` the table of contents of the archive those bytes form. The
   * result is `Err` when a write raised or when the archive does not hold exactly one
   * entry (the `NameError` of the code as written), otherwise the one dump; `spooled`
   * is what reached the temporary file and `progress` the reported percentages.
   */
  method OpenDumpInZip(contentLength: Option<nat>, download: seq<seq<byte>>, entries: seq<ZipEntry>)
    returns (r: Result<Dump, string>, spooled: seq<byte>, progress: seq<int>)
    ensures r.Err? <==> (contentLength == Some(0) && download != []) || |entries| != 1
    ensures !(contentLength == Some(0) && download != []) ==> spooled == Flatten(download)
    ensures r.Ok? ==> ValidateArchive(entries) == Some(r.value) && r == OpenDumpInZipAsWritten(entries)
    ensures r == DumpInZip(Remote(contentLength, download, entries))
    ensures contentLength.None? ==> progress == []
    ensures forall i, j :: 0 <= i < j < |progress| ==> progress[i] < progress[j]
  {
    var sf := new StatusFile();
    if contentLength.Some? {
      sf.SetSize(contentLength.value);
    }
    var i := 0;
    while i < |download|
      invariant 0 <= i <= |download|
      invariant sf.Valid()
      invariant sf.written == download[..i] && sf.n == |Flatten(download[..i])|
      invariant sf.tot == contentLength
      invariant contentLength.None? ==> sf.reported == []
      invariant contentLength == Some(0) ==> i == 0
    {
      var raised := sf.Write(download[i]);
      if raised {
        return Err("ZeroDivisionError"), Flatten(sf.written), sf.reported;
      }
      assert download[..i + 1] == download[..i] + [download[i]];
      i := i + 1;
    }
    assert download[..i] == download;
    spooled := Flatten(sf.written);
    progress := sf.reported;
    r := OpenDumpInZipAsWritten(entries);
  }
}
