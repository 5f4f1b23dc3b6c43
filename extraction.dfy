/** What extracting an archive writes, as a function of its entries and of the
    filesystem: the specification the extraction loop is proved against. */
module Extraction {
  import opened Paths
  import opened Zip
  import opened Storage

  /** One file extraction writes: its output path and its bytes. */
  datatype Extracted = Extracted(path: string, data: seq<byte>)

  /** Whether extraction reports success, or ends in the error handler. */
  datatype Outcome = Succeeded | Failed

  /** Everything extraction depends on besides the entries: the destination
      chosen by the user, the screen title the root folder is named after,
      whether that root folder exists and can be created, and which output
      paths can be opened. */
  datatype Target = Target(destination: string, title: string, rootExists: bool,
                           rootCreatable: bool, writable: set<string>)

  /** The state after some entries: what has been written, whether the root
      folder exists, and whether an output could not be opened (which ends
      extraction). */
  datatype Progress = Progress(written: seq<Extracted>, rootExists: bool, failed: bool)

  /** What one entry does. With the root folder missing and not creatable the
      entry is skipped; a directory entry only makes sure the root exists; a
      file entry is written in full at its output path, or ends extraction
      when that path cannot be opened. */
  function Step(t: Target, st: Progress, e: StoredEntry): Progress {
    if st.failed then st
    else if !st.rootExists && !t.rootCreatable then st
    else if e.header.IsDirectory() then st.(rootExists := true)
    else
      var out := OutputPath(t.destination, t.title, e.header.name);
      if out in t.writable then Progress(st.written + [Extracted(out, e.data)], true, false)
      else st.(rootExists := true, failed := true)
  }

  /** The entries processed in stream order. */
  function Run(t: Target, entries: seq<StoredEntry>): Progress
    decreases |entries|
  {
    if entries == [] then Progress([], t.rootExists, false)
    else Step(t, Run(t, entries[..|entries| - 1]), entries[|entries| - 1])
  }

  /** Success unless an output could not be opened or the stream was corrupt
      after its last entry. */
  function ExtractOutcome(t: Target, entries: seq<StoredEntry>, end: StreamEnd): Outcome {
    if Run(t, entries).failed || end == Corrupt then Failed else Succeeded
  }

  /** The output files as path and concatenated bytes. */
  function Contents(outputs: seq<Output>): (r: seq<Extracted>)
    ensures |r| == |outputs|
    ensures forall i :: 0 <= i < |outputs| ==>
      r[i] == Extracted(outputs[i].path, Flatten(outputs[i].chunks))
  {
    seq(|outputs|, i requires 0 <= i < |outputs| => Extracted(outputs[i].path, Flatten(outputs[i].chunks)))
  }

  lemma ContentsSnoc(outputs: seq<Output>, o: Output)
    ensures Contents(outputs + [o]) == Contents(outputs) + [Extracted(o.path, Flatten(o.chunks))]
  {
  }

  /** Reference: the file (non-directory) entries, each at its output path with
      its full data, in stream order. */
  function FileEntries(t: Target, entries: seq<StoredEntry>): seq<Extracted>
    decreases |entries|
  {
    if entries == [] then []
    else
      var e := entries[|entries| - 1];
      FileEntries(t, entries[..|entries| - 1])
        + (if e.header.IsDirectory() then []
           else [Extracted(OutputPath(t.destination, t.title, e.header.name), e.data)])
  }

  /** Every file entry's output path can be opened. */
  predicate AllWritable(t: Target, entries: seq<StoredEntry>) {
    forall i :: 0 <= i < |entries| && !entries[i].header.IsDirectory() ==>
      OutputPath(t.destination, t.title, entries[i].header.name) in t.writable
  }

  lemma RunSnoc(t: Target, entries: seq<StoredEntry>, e: StoredEntry)
    ensures Run(t, entries + [e]) == Step(t, Run(t, entries), e)
  {
    assert (entries + [e])[..|entries|] == entries;
  }

  /** Once an output could not be opened, later entries change nothing. */
  lemma {:induction false} RunFailedStays(t: Target, entries: seq<StoredEntry>, more: seq<StoredEntry>)
    requires Run(t, entries).failed
    ensures Run(t, entries + more) == Run(t, entries)
    decreases |more|
  {
    if more == [] {
      assert entries + more == entries;
    } else {
      var init, last := more[..|more| - 1], more[|more| - 1];
      RunFailedStays(t, entries, init);
      assert entries + more == (entries + init) + [last];
      RunSnoc(t, entries + init, last);
      assert Run(t, entries + init).failed;
    }
  }

  lemma RunPrefixStep(t: Target, entries: seq<StoredEntry>, i: nat)
    requires i < |entries|
    ensures Run(t, entries[..i + 1]) == Step(t, Run(t, entries[..i]), entries[i])
  {
    assert entries[..i + 1] == entries[..i] + [entries[i]];
    RunSnoc(t, entries[..i], entries[i]);
  }

  lemma RunFailedPrefix(t: Target, entries: seq<StoredEntry>, i: nat)
    requires i <= |entries| && Run(t, entries[..i]).failed
    ensures Run(t, entries) == Run(t, entries[..i])
  {
    RunFailedStays(t, entries[..i], entries[i..]);
    assert entries[..i] + entries[i..] == entries;
  }

  /** With the root folder missing and impossible to create, every entry is
      skipped: nothing is written and extraction still does not fail. */
  lemma {:induction false} RootUnavailableSkipsAll(t: Target, entries: seq<StoredEntry>)
    requires !t.rootExists && !t.rootCreatable
    ensures Run(t, entries) == Progress([], false, false)
    decreases |entries|
  {
    if entries != [] { RootUnavailableSkipsAll(t, entries[..|entries| - 1]); }
  }

  /** With the root folder present or creatable and every output openable,
      exactly the file entries are written, each with all its bytes, in stream
      order; directory entries write nothing, and duplicates are written again. */
  lemma {:induction false} RootAvailableWritesFiles(t: Target, entries: seq<StoredEntry>)
    requires t.rootExists || t.rootCreatable
    requires AllWritable(t, entries)
    ensures Run(t, entries).written == FileEntries(t, entries)
    ensures !Run(t, entries).failed
    ensures Run(t, entries).rootExists == (t.rootExists || entries != [])
    decreases |entries|
  {
    if entries != [] {
      var init := entries[..|entries| - 1];
      assert AllWritable(t, init) by {
        forall i | 0 <= i < |init| ensures init[i] == entries[i] { }
      }
      RootAvailableWritesFiles(t, init);
    }
  }

  /** When the first unopenable output belongs to entry `i`, extraction fails
      after writing exactly the file entries before `i`. */
  lemma StopsAtUnwritable(t: Target, entries: seq<StoredEntry>, i: nat)
    requires t.rootExists || t.rootCreatable
    requires i < |entries| && !entries[i].header.IsDirectory()
    requires OutputPath(t.destination, t.title, entries[i].header.name) !in t.writable
    requires AllWritable(t, entries[..i])
    ensures Run(t, entries).failed
    ensures Run(t, entries).written == FileEntries(t, entries[..i])
  {
    RootAvailableWritesFiles(t, entries[..i]);
    RunPrefixStep(t, entries, i);
    RunFailedPrefix(t, entries, i + 1);
  }

  /** Everything written comes from a file entry: its output path (under the
      root folder) and its complete data. */
  lemma {:induction false} WrittenFromFileEntries(t: Target, entries: seq<StoredEntry>)
    ensures |Run(t, entries).written| <= |entries|
    ensures forall w :: w in Run(t, entries).written ==>
      exists i :: 0 <= i < |entries| && !entries[i].header.IsDirectory()
        && w == Extracted(OutputPath(t.destination, t.title, entries[i].header.name), entries[i].data)
    decreases |entries|
  {
    if entries != [] {
      var init := entries[..|entries| - 1];
      WrittenFromFileEntries(t, init);
      forall w | w in Run(t, entries).written
        ensures exists i :: (0 <= i < |entries| && !entries[i].header.IsDirectory()
          && w == Extracted(OutputPath(t.destination, t.title, entries[i].header.name), entries[i].data))
      {
        if w in Run(t, init).written {
          var i :| 0 <= i < |init| && !init[i].header.IsDirectory()
            && w == Extracted(OutputPath(t.destination, t.title, init[i].header.name), init[i].data);
          assert init[i] == entries[i];
        }
      }
    }
  }

  /** A one-file archive whose root folder is available and whose output
      can be opened writes that file's bytes at `destination/base/name` and
      succeeds. */
  lemma SingleFileArchive(t: Target, e: StoredEntry)
    requires t.rootExists || t.rootCreatable
    requires !e.header.IsDirectory()
    requires OutputPath(t.destination, t.title, e.header.name) in t.writable
    ensures Run(t, [e]).written
         == [Extracted(RootFolder(t.destination, t.title) + "/" + TrimTrailingSlashes(e.header.name), e.data)]
    ensures ExtractOutcome(t, [e], Clean) == Succeeded
  {
    RunSnoc(t, [], e);
    assert [] + [e] == [e];
  }
}
