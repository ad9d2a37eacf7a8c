/** `sha256_of_file`: stream a file in 8192-byte chunks into an incremental
    SHA-256 accumulator.  The hash algorithm itself is a parameter
    `digest`; the accumulator's state is the byte string fed to it so far,
    so the digest of a file is `digest` of the bytes the loop fed in. */
module Hashing {
  import opened Types

  /** Bytes `f.read` asks for at a time. */
  const ChunkSize: nat := 8192

  /** A regular file on disk.  Reads that start at offset `failsFrom` or
      later raise `OSError` (an I/O failure part-way through the file, which
      names no file). */
  datatype FileEntry = FileEntry(contents: seq<byte>, failsFrom: Option<nat>)

  /** The file system: path to file; a missing path cannot be opened. */
  type Disk = map<string, FileEntry>

  predicate ReadFailsAt(f: FileEntry, pos: nat) {
    f.failsFrom.Some? && f.failsFrom.value <= pos
  }

  /** Every read up to and including the final empty one succeeds. */
  predicate ReadsToEnd(f: FileEntry) {
    !ReadFailsAt(f, |f.contents|)
  }

  /** `sha256_of_file(path)` returns normally for exactly these paths. */
  predicate Hashable(disk: Disk, path: string) {
    path in disk && ReadsToEnd(disk[path])
  }

  /** What `sha256_of_file(path)` raises otherwise: `open` names the missing
      path, a failing `read` names no file. */
  function HashError(disk: Disk, path: string): Error {
    if path in disk then OSError(None) else OSError(Some(path))
  }

  /** The concatenation of the chunks, in order. */
  function Flatten(chunks: seq<seq<byte>>): seq<byte> {
    if chunks == [] then [] else Flatten(chunks[..|chunks| - 1]) + chunks[|chunks| - 1]
  }

  lemma FlattenSnoc(chunks: seq<seq<byte>>, c: seq<byte>)
    ensures Flatten(chunks + [c]) == Flatten(chunks) + c
  {
    assert (chunks + [c])[..|chunks|] == chunks;
  }

  /** Chunks as the loop produces them: each non-empty and at most
      `ChunkSize` bytes, all but the last exactly `ChunkSize`, and a short
      last chunk only once the end of the file is reached (`atEnd`). */
  ghost predicate Chunked(chunks: seq<seq<byte>>, atEnd: bool) {
    (forall i :: 0 <= i < |chunks| ==> 0 < |chunks[i]| <= ChunkSize)
    && (forall i :: 0 <= i < |chunks| - 1 ==> |chunks[i]| == ChunkSize)
    && (chunks != [] && |chunks[|chunks| - 1]| < ChunkSize ==> atEnd)
  }

  lemma ChunkedSnoc(chunks: seq<seq<byte>>, c: seq<byte>, atEnd: bool)
    requires Chunked(chunks, false) && 0 < |c| <= ChunkSize && (|c| < ChunkSize ==> atEnd)
    ensures Chunked(chunks + [c], atEnd)
  {
  }

  function Min(a: nat, b: nat): nat {
    if a <= b then a else b
  }

  /** An open binary file object (`open(path, "rb")`). */
  class Reader {
    const path: string
    const file: FileEntry
    var pos: nat

    constructor Open(path: string, file: FileEntry)
      ensures this.path == path && this.file == file && pos == 0
    {
      this.path := path;
      this.file := file;
      pos := 0;
    }

    /** `f.read(n)`: up to `n` bytes from the current offset, `b""` at the
        end of the file, or an `OSError` without a file name. */
    method Read(n: nat) returns (r: Result<seq<byte>>)
      requires pos <= |file.contents|
      modifies this
      ensures pos <= |file.contents|
      ensures ReadFailsAt(file, old(pos)) ==> r == Err(OSError(None)) && pos == old(pos)
      ensures !ReadFailsAt(file, old(pos)) ==>
                pos == Min(old(pos) + n, |file.contents|) && r == Ok(file.contents[old(pos)..pos])
    {
      if ReadFailsAt(file, pos) {
        return Err(OSError(None));
      }
      var end := Min(pos + n, |file.contents|);
      r := Ok(file.contents[pos..end]);
      pos := end;
    }
  }

  /** A `hashlib.sha256()` object, abstracted to the bytes it has absorbed.
      `calls` records the argument of every `update` call, in order. */
  class Sha256 {
    var fed: seq<byte>
    ghost var calls: seq<seq<byte>>

    ghost predicate Valid()
      reads this
    {
      fed == Flatten(calls)
    }

    constructor ()
      ensures Valid() && fed == [] && calls == []
    {
      fed := [];
      calls := [];
    }

    /** `h.update(chunk)`. */
    method Update(chunk: seq<byte>)
      requires Valid()
      modifies this
      ensures Valid() && fed == old(fed) + chunk && calls == old(calls) + [chunk]
    {
      FlattenSnoc(calls, chunk);
      fed := fed + chunk;
      calls := calls + [chunk];
    }

    /** `h.hexdigest()`. */
    function HexDigest(digest: seq<byte> -> string): string
      reads this
    {
      digest(fed)
    }
  }

  /** `sha256_of_file(path)`.  Opening a missing path or a failing read
      raises `OSError`; otherwise the result is the digest of the whole
      file.  `chunks` is the accumulator's record of its `update` calls: every
      one non-empty and at most `ChunkSize` bytes, all but the last exactly
      `ChunkSize`, and together exactly the file's bytes (on failure, a
      prefix of them). */
  method Sha256OfFile(disk: Disk, path: string, digest: seq<byte> -> string)
    returns (r: Result<string>, ghost chunks: seq<seq<byte>>)
    ensures Hashable(disk, path) ==> r == Ok(digest(disk[path].contents))
    ensures !Hashable(disk, path) ==> r == Err(HashError(disk, path))
    ensures forall i :: 0 <= i < |chunks| ==> 0 < |chunks[i]| <= ChunkSize
    ensures forall i :: 0 <= i < |chunks| - 1 ==> |chunks[i]| == ChunkSize
    ensures path in disk ==> Flatten(chunks) <= disk[path].contents
    ensures r.Ok? ==> Flatten(chunks) == disk[path].contents
  {
    chunks := [];
    if path !in disk {
      return Err(OSError(Some(path))), chunks;
    }
    var f := new Reader.Open(path, disk[path]);
    var h := new Sha256();
    ghost var contents := disk[path].contents;
    while true
      invariant f.path == path && f.file == disk[path] && f.pos <= |contents|
      invariant h.Valid() && h.fed == contents[..f.pos] && chunks == h.calls
      invariant Chunked(chunks, f.pos == |contents|)
      decreases |contents| - f.pos
    {
      ghost var before := f.pos;
      var chunk := f.Read(ChunkSize);
      if chunk.Err? {
        return Err(chunk.error), chunks;
      }
      if chunk.value == [] {
        break;
      }
      assert contents[..f.pos] == contents[..before] + chunk.value;
      ChunkedSnoc(chunks, chunk.value, f.pos == |contents|);
      h.Update(chunk.value);
      chunks := h.calls;
    }
    assert h.fed == contents;
    r := Ok(h.HexDigest(digest));
  }
}
