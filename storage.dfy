/** The filesystem as extraction sees it: which paths exist, which directories
    can be created, which files can be opened for writing, and the log of
    output files opened so far with the chunks written into each. */
module Storage {
  import opened Zip

  /** One opened output file and the chunks written into it, in order. */
  datatype Output = Output(path: string, chunks: seq<seq<byte>>)

  /** The concatenation of a sequence of chunks. */
  function Flatten(chunks: seq<seq<byte>>): (bytes: seq<byte>)
    ensures chunks == [] ==> bytes == []
  {
    if chunks == [] then [] else Flatten(chunks[..|chunks| - 1]) + chunks[|chunks| - 1]
  }

  /** Every chunk is non-empty and at most `limit` bytes long. */
  predicate ChunksWithin(outputs: seq<Output>, limit: nat) {
    forall i, j :: 0 <= i < |outputs| && 0 <= j < |outputs[i].chunks| ==>
      1 <= |outputs[i].chunks[j]| <= limit
  }

  /** The outputs with chunk `c` written at the end of the last one. */
  function AppendToLast(outputs: seq<Output>, c: seq<byte>): (r: seq<Output>)
    requires outputs != []
    ensures |r| == |outputs| && r[..|r| - 1] == outputs[..|outputs| - 1]
    ensures r[|r| - 1].path == outputs[|outputs| - 1].path
    ensures r[|r| - 1].chunks == outputs[|outputs| - 1].chunks + [c]
  {
    var last := outputs[|outputs| - 1];
    outputs[..|outputs| - 1] + [Output(last.path, last.chunks + [c])]
  }

  /** Appending a chunk of 1 to `limit` bytes to the last output keeps every
      chunk from `n0` on within the limit, and extends that output's bytes. */
  lemma AppendChunk(outputs: seq<Output>, n0: nat, c: seq<byte>, limit: nat)
    requires n0 < |outputs| && ChunksWithin(outputs[n0..], limit)
    requires 1 <= |c| <= limit
    ensures ChunksWithin(AppendToLast(outputs, c)[n0..], limit)
    ensures Flatten(AppendToLast(outputs, c)[|outputs| - 1].chunks)
         == Flatten(outputs[|outputs| - 1].chunks) + c
  {
    var last := outputs[|outputs| - 1];
    var outs := AppendToLast(outputs, c);
    assert (last.chunks + [c])[..|last.chunks|] == last.chunks;
    forall i, j | 0 <= i < |outs[n0..]| && 0 <= j < |outs[n0..][i].chunks|
      ensures 1 <= |outs[n0..][i].chunks[j]| <= limit
    {
      if n0 + i < |outputs| - 1 {
        assert outs[n0..][i] == outs[n0 + i] == outputs[n0 + i] == outputs[n0..][i];
      } else if j < |last.chunks| {
        assert outs[n0..][i].chunks[j] == outputs[n0..][i].chunks[j];
      }
    }
  }

  class FileSystem {
    /** Directories that exist (`getDoesFilePathExist` on a folder); opened
        output files are recorded in `outputs` instead. */
    var existing: set<string>
    /** Paths whose creation as a directory succeeds (`createDirectorySync`). */
    const creatable: set<string>
    /** Paths an output stream can be opened on (`getFileOutputStreamSync`
        returns a stream rather than null). */
    const writable: set<string>
    /** The output files opened so far, oldest first. */
    var outputs: seq<Output>

    constructor (existing: set<string>, creatable: set<string>, writable: set<string>)
      ensures this.existing == existing && this.creatable == creatable
      ensures this.writable == writable && outputs == []
    {
      this.existing := existing;
      this.creatable := creatable;
      this.writable := writable;
      outputs := [];
    }

    method PathExists(p: string) returns (b: bool)
      ensures b == (p in existing)
    {
      b := p in existing;
    }

    /** Creates directory `p`; on success `p` exists afterwards. */
    method CreateDirectory(p: string) returns (ok: bool)
      modifies this
      ensures ok == (p in creatable)
      ensures existing == if ok then old(existing) + {p} else old(existing)
      ensures outputs == old(outputs)
    {
      ok := p in creatable;
      if ok {
        existing := existing + {p};
      }
    }

    /** Opens an output stream on `p`; on success a new, empty output is logged. */
    method OpenOutput(p: string) returns (ok: bool)
      modifies this
      ensures ok == (p in writable)
      ensures outputs == if ok then old(outputs) + [Output(p, [])] else old(outputs)
      ensures existing == old(existing)
    {
      ok := p in writable;
      if ok {
        outputs := outputs + [Output(p, [])];
      }
    }

    /** Writes `buffer[off..off + count]` to the most recently opened output. */
    method Write(buffer: array<byte>, off: nat, count: nat)
      requires outputs != []
      requires off + count <= buffer.Length
      modifies this
      ensures outputs == AppendToLast(old(outputs), buffer[off..off + count])
      ensures existing == old(existing)
    {
      outputs := AppendToLast(outputs, buffer[off..off + count]);
    }
  }
}
