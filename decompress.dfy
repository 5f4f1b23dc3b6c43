/** The decompress screen: the list of every entry of the archive, the folder
    being browsed with the items shown for it, and extraction of the archive
    under a destination folder. */
module Decompress {
  import opened Paths
  import opened Zip
  import opened Listing
  import opened Storage
  import opened Extraction

  /** The size of the copy buffer extraction reads into. */
  const BufferSize: nat := 1024

  class DecompressActivity {
    /** One item per archive entry, in stream order. */
    var allFiles: seq<ListItem>
    /** The folder being browsed; "" is the archive's root. */
    var currentPath: string
    /** The items the list currently shows. */
    var shownItems: seq<ListItem>

    constructor ()
      ensures allFiles == [] && currentPath == "" && shownItems == []
    {
      allFiles := [];
      currentPath := "";
      shownItems := [];
    }

    /** The list shows the children of the folder being browsed. */
    ghost predicate Shown()
      reads this
    {
      shownItems == FolderItems(allFiles, currentPath)
    }

    /** `getFolderItems`: the children of `parent`, directories first, then by
        name. Its properties are the lemmas about `Listing.FolderItems`. */
    function GetFolderItems(parent: string): seq<ListItem>
      reads this
    {
      FolderItems(allFiles, parent)
    }

    /** Opening the screen: read the archive's entries (a null `source` stands
        for a stream that could not be opened) and show its root. */
    method OnCreate(source: ZipStream?, oreoPlus: bool)
      requires source != null ==> source.Valid()
      modifies this, source
      ensures source != null ==> source.Valid()
      ensures allFiles == old(allFiles) +
        (if source == null then [] else ItemsOf(source.entries[old(source.next)..], oreoPlus))
      ensures currentPath == "" && shownItems == FolderItems(allFiles, "")
      ensures Shown()
    {
      FillAllListItems(source, oreoPlus);
      UpdateCurrentPath("");
    }

    /** `fillAllListItems`: appends one item per entry read until the stream
        reports no further entry or throws; items appended so far are kept. */
    method FillAllListItems(source: ZipStream?, oreoPlus: bool)
      requires source != null ==> source.Valid()
      modifies this`allFiles, source
      ensures source != null ==> source.Valid() && source.next == |source.entries|
      ensures allFiles == old(allFiles) +
        (if source == null then [] else ItemsOf(source.entries[old(source.next)..], oreoPlus))
    {
      if source == null {
        return;
      }
      ghost var start := source.next;
      ghost var read: seq<StoredEntry> := [];
      while true
        invariant source.Valid() && start <= source.next
        invariant read == source.entries[start..source.next]
        invariant allFiles == old(allFiles) + ItemsOf(read, oreoPlus)
        decreases |source.entries| - source.next
      {
        var r := source.NextEntry();
        if !r.Entry? {
          assert read == source.entries[start..];
          break;
        }
        ghost var e := source.entries[source.next - 1];
        assert source.entries[start..source.next] == read + [e];
        var item := ItemOf(r.entry, oreoPlus);
        ItemsOfSnoc(read, e, oreoPlus);
        AppendAssoc(old(allFiles), ItemsOf(read, oreoPlus), [item]);
        allFiles := allFiles + [item];
        read := read + [e];
      }
    }

    /** `updateCurrentPath`: browse `path` and show its children. */
    method UpdateCurrentPath(path: string)
      modifies this`currentPath, this`shownItems
      ensures currentPath == path
      ensures shownItems == FolderItems(allFiles, path)
      ensures Shown()
    {
      currentPath := path;
      shownItems := GetFolderItems(currentPath);
    }

    /** Tapping a shown item: a directory is opened, a file does nothing.
        Opening a directory moves one level down: going back returns here. */
    method OnItemClick(item: ListItem)
      requires Shown() && item in shownItems
      modifies this`currentPath, this`shownItems
      ensures Shown()
      ensures currentPath == if item.isDirectory then item.path else old(currentPath)
      ensures !item.isDirectory ==> shownItems == old(shownItems)
      ensures item.isDirectory ==> ParentPath(currentPath) == old(currentPath)
    {
      if item.isDirectory {
        FolderItemsExact(allFiles, currentPath);
        UpdateCurrentPath(item.path);
      }
    }

    /** `onBackPressed`: at the root the screen is left (`exits`); elsewhere
        the parent folder is browsed, whose path is strictly shorter. */
    method OnBackPressed() returns (exits: bool)
      modifies this`currentPath, this`shownItems
      ensures exits == (old(currentPath) == "")
      ensures exits ==> currentPath == old(currentPath) && shownItems == old(shownItems)
      ensures !exits ==> currentPath == ParentPath(old(currentPath))
      ensures !exits ==> |currentPath| < |old(currentPath)|
      ensures !exits ==> shownItems == FolderItems(allFiles, currentPath)
      ensures old(Shown()) ==> Shown()
    {
      if currentPath == "" {
        exits := true;
      } else {
        exits := false;
        var newPath := if '/' in currentPath then ParentPath(currentPath) else "";
        UpdateCurrentPath(newPath);
      }
    }

    /** `decompressTo`: extracts every entry of a freshly opened `source`
        (null when the archive cannot be opened) under
        `destination/BaseName(title)`, as `Extraction.Run` describes. The new
        outputs hold exactly the bytes `Run` says, copied in chunks of at most
        `BufferSize` bytes; the root folder is the only directory created. */
    method DecompressTo(source: ZipStream?, fs: FileSystem, destination: string, title: string)
      returns (outcome: Outcome)
      requires source != null ==> source.Valid() && source.next == 0
      modifies source, fs
      ensures source == null ==> outcome == Failed
      ensures source == null ==> fs.outputs == old(fs.outputs) && fs.existing == old(fs.existing)
      ensures source != null ==>
        var root := RootFolder(destination, title);
        var t := Target(destination, title, root in old(fs.existing), root in fs.creatable, fs.writable);
        && outcome == ExtractOutcome(t, source.entries, source.end)
        && Tracks(fs, old(fs.outputs), old(fs.existing), root, Run(t, source.entries))
    {
      if source == null {
        return Failed;
      }
      var buffer := new byte[BufferSize];
      ghost var root := RootFolder(destination, title);
      ghost var t := Target(destination, title, root in fs.existing, root in fs.creatable, fs.writable);
      assert fs.outputs[|fs.outputs|..] == [];
      while true
        invariant source.Valid()
        invariant fresh(buffer) && buffer.Length == BufferSize
        invariant !Run(t, source.entries[..source.next]).failed
        invariant Tracks(fs, old(fs.outputs), old(fs.existing), root, Run(t, source.entries[..source.next]))
        decreases |source.entries| - source.next
      {
        ghost var done := source.entries[..source.next];
        var r := source.NextEntry();
        if r.NoMore? {
          assert done == source.entries;
          break;
        }
        if r.Thrown? {
          assert done == source.entries;
          return Failed;
        }
        ghost var stored := source.entries[source.next - 1];
        RunPrefixStep(t, source.entries, source.next - 1);
        var isOpen := ExtractEntry(source, fs, buffer, destination, title, r.entry,
                                   stored.data, t, old(fs.outputs), old(fs.existing), Run(t, done));
        if !isOpen {
          RunFailedPrefix(t, source.entries, source.next);
          return Failed;
        }
      }
      return Succeeded;
    }

    /** The body of `decompressTo`'s entry loop, for an entry whose data is
        `data`: compute the output path, make sure the root folder exists (or
        skip the entry), skip directories, and copy a file entry's bytes into a
        new output. `isOpen` is false exactly when the output could not be
        opened, which ends extraction. */
    method ExtractEntry(source: ZipStream, fs: FileSystem, buffer: array<byte>,
                        destination: string, title: string, entry: ZipEntry,
                        ghost data: seq<byte>, ghost t: Target, ghost before: seq<Output>,
                        ghost existing0: set<string>, ghost st: Progress)
      returns (isOpen: bool)
      requires source.Valid() && source.pending == data
      requires buffer.Length == BufferSize
      requires t.destination == destination && t.title == title
      requires t.rootCreatable == (RootFolder(destination, title) in fs.creatable)
      requires t.writable == fs.writable
      requires !st.failed && Tracks(fs, before, existing0, RootFolder(destination, title), st)
      modifies source, fs, buffer
      ensures source.Valid() && source.next == old(source.next)
      ensures isOpen == !Step(t, st, StoredEntry(entry, data)).failed
      ensures Tracks(fs, before, existing0, RootFolder(destination, title), Step(t, st, StoredEntry(entry, data)))
    {
      var filename := BaseName(title);
      var parent := destination + "/" + filename;
      var newPath := parent + "/" + TrimTrailingSlashes(entry.name);
      ghost var e := StoredEntry(entry, data);
      assert parent == RootFolder(destination, title);
      assert newPath == OutputPath(destination, title, entry.name);
      assert st.rootExists == (parent in fs.existing);
      isOpen := true;
      var present := fs.PathExists(parent);
      if !present {
        var created := fs.CreateDirectory(parent);
        if !created {
          assert Step(t, st, e) == st;
          return;
        }
      }
      assert fs.existing == existing0 + {parent};
      assert Tracks(fs, before, existing0, parent, st.(rootExists := true));
      if entry.IsDirectory() {
        assert Step(t, st, e) == st.(rootExists := true);
        return;
      }
      isOpen := WriteFileEntry(source, fs, buffer, newPath, data, before, existing0, parent, st.(rootExists := true));
    }

    /** The file part of the entry loop's body: open `newPath` and copy the
        entry's remaining bytes `data` into it; `isOpen` is false when the
        output could not be opened. */
    method WriteFileEntry(source: ZipStream, fs: FileSystem, buffer: array<byte>, newPath: string,
                          ghost data: seq<byte>, ghost before: seq<Output>,
                          ghost existing0: set<string>, ghost root: string, ghost st: Progress)
      returns (isOpen: bool)
      requires source.Valid() && source.pending == data
      requires buffer.Length == BufferSize
      requires Tracks(fs, before, existing0, root, st)
      modifies source, fs, buffer
      ensures source.Valid() && source.next == old(source.next)
      ensures isOpen == (newPath in fs.writable)
      ensures Tracks(fs, before, existing0, root,
                     if isOpen then st.(written := st.written + [Extracted(newPath, data)])
                     else st.(failed := true))
    {
      isOpen := fs.OpenOutput(newPath);
      if !isOpen {
        return;
      }
      ghost var n0 := |before|;
      assert fs.outputs[n0..] == old(fs.outputs)[n0..] + [Output(newPath, [])];
      CopyEntry(source, fs, buffer, n0);
      ContentsSnoc(old(fs.outputs)[n0..], fs.outputs[|fs.outputs| - 1]);
      assert fs.outputs[n0..] == old(fs.outputs)[n0..] + [fs.outputs[|fs.outputs| - 1]];
    }

    /** The inner loop of `decompressTo`: copies the rest of the current entry
        through `buffer` into the output opened last, until `Read` gives -1. */
    method CopyEntry(source: ZipStream, fs: FileSystem, buffer: array<byte>, ghost n0: nat)
      requires source.Valid() && n0 < |fs.outputs|
      requires buffer.Length == BufferSize
      requires fs.outputs[|fs.outputs| - 1].chunks == []
      requires ChunksWithin(fs.outputs[n0..], BufferSize)
      modifies source, fs, buffer
      ensures source.Valid() && source.next == old(source.next)
      ensures var last := old(fs.outputs)[|old(fs.outputs)| - 1];
        && |fs.outputs| == |old(fs.outputs)|
        && fs.outputs[..|fs.outputs| - 1] == old(fs.outputs)[..|old(fs.outputs)| - 1]
        && fs.outputs[|fs.outputs| - 1].path == last.path
        && Flatten(fs.outputs[|fs.outputs| - 1].chunks) == old(source.pending)
      ensures ChunksWithin(fs.outputs[n0..], BufferSize)
      ensures fs.existing == old(fs.existing)
    {
      ghost var k := |fs.outputs| - 1;
      while true
        invariant source.Valid() && source.next == old(source.next)
        invariant |fs.outputs| == k + 1
        invariant fs.outputs[..k] == old(fs.outputs)[..k]
        invariant fs.outputs[k].path == old(fs.outputs)[k].path
        invariant Flatten(fs.outputs[k].chunks) + source.pending == old(source.pending)
        invariant ChunksWithin(fs.outputs[n0..], BufferSize)
        invariant fs.existing == old(fs.existing)
        decreases |source.pending|
      {
        ghost var rest := source.pending;
        ghost var written := Flatten(fs.outputs[k].chunks);
        var count := source.Read(buffer);
        if count == -1 {
          break;
        }
        ghost var chunk := buffer[..count];
        assert buffer[0..0 + count] == chunk;
        assert rest == chunk + source.pending;
        AppendChunk(fs.outputs, n0, chunk, BufferSize);
        fs.Write(buffer, 0, count);
        AppendAssoc(written, chunk, source.pending);
      }
    }
  }

  lemma AppendAssoc<T>(a: seq<T>, b: seq<T>, c: seq<T>)
    ensures (a + b) + c == a + (b + c)
  {
  }

  /** The filesystem after extraction has reached progress `p`: the outputs
      present before are untouched, the new outputs hold exactly `p.written`
      in chunks of at most `BufferSize` bytes, and the root folder is the only
      path added. */
  ghost predicate Tracks(fs: FileSystem, before: seq<Output>, existing0: set<string>,
                         root: string, p: Progress)
    reads fs
  {
    && |fs.outputs| >= |before| && fs.outputs[..|before|] == before
    && Contents(fs.outputs[|before|..]) == p.written
    && ChunksWithin(fs.outputs[|before|..], BufferSize)
    && fs.existing == existing0 + (if p.rootExists then {root} else {})
    && p.rootExists == (root in fs.existing)
  }
}
