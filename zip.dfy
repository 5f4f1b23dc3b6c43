/** The archive as the screen reads it: a forward-only stream of entries, each
    followed by its decompressed bytes (the role `java.util.zip.ZipInputStream`
    plays). The decoder itself is not modelled; the stream's contents are given. */
module Zip {

  newtype byte = x: int | 0 <= x < 256

  /** An entry header: its raw name and its modification time in milliseconds. */
  datatype ZipEntry = ZipEntry(name: string, modifiedMillis: int) {
    /** A ZIP entry is a directory exactly when its name ends with '/'. */
    predicate IsDirectory() {
      |name| > 0 && name[|name| - 1] == '/'
    }
  }

  /** An entry together with the bytes its data decompresses to. */
  datatype StoredEntry = StoredEntry(header: ZipEntry, data: seq<byte>)

  /** What asking for an entry after the last one does: return null, or throw
      because the archive is corrupt. */
  datatype StreamEnd = Clean | Corrupt

  /** The outcome of one `nextEntry` call. */
  datatype NextResult = Entry(entry: ZipEntry) | NoMore | Thrown

  class ZipStream {
    const entries: seq<StoredEntry>
    const end: StreamEnd
    /** How many entries `NextEntry` has handed out. */
    var next: nat
    /** The bytes of the current entry not read yet. */
    var pending: seq<byte>

    ghost predicate Valid()
      reads this
    {
      next <= |entries|
    }

    /** A freshly opened stream, positioned before the first entry. */
    constructor (entries: seq<StoredEntry>, end: StreamEnd)
      ensures Valid()
      ensures this.entries == entries && this.end == end
      ensures next == 0 && pending == []
    {
      this.entries := entries;
      this.end := end;
      next := 0;
      pending := [];
    }

    /** Moves to the next entry, dropping what is left of the current one. */
    method NextEntry() returns (r: NextResult)
      requires Valid()
      modifies this
      ensures Valid()
      ensures old(next) < |entries| ==>
        && r == Entry(entries[old(next)].header)
        && next == old(next) + 1
        && pending == entries[old(next)].data
      ensures old(next) == |entries| ==>
        && r == (if end == Clean then NoMore else Thrown)
        && next == old(next)
        && pending == []
    {
      if next < |entries| {
        r := Entry(entries[next].header);
        pending := entries[next].data;
        next := next + 1;
      } else {
        r := if end == Clean then NoMore else Thrown;
        pending := [];
      }
    }

    /** Reads some of the current entry's bytes into `buffer`: 0 for an empty
        buffer, -1 at the end of the entry, and otherwise between 1 and
        `buffer.Length` bytes, as many as the decoder chooses. */
    method Read(buffer: array<byte>) returns (count: int)
      requires Valid()
      modifies this, buffer
      ensures Valid() && next == old(next)
      ensures buffer.Length == 0 ==> count == 0 && pending == old(pending)
      ensures buffer.Length > 0 && old(pending) == [] ==> count == -1 && pending == []
      ensures buffer.Length > 0 && old(pending) != [] ==>
        && 1 <= count <= buffer.Length
        && count <= |old(pending)|
        && buffer[..count] == old(pending)[..count]
        && pending == old(pending)[count..]
    {
      if buffer.Length == 0 {
        count := 0;
      } else if pending == [] {
        count := -1;
      } else {
        var n :| 1 <= n <= buffer.Length && n <= |pending|;
        forall i | 0 <= i < n {
          buffer[i] := pending[i];
        }
        count := n;
        pending := pending[n..];
      }
    }
  }
}
