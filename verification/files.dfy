/**
 * The local file primitives over a disk modelled as a map from path to content.
 * Directories are not modelled: `Create` reports the directory it would make with
 * `mkdir -p`, and creating the file itself succeeds or fails by an outcome parameter.
 */
module Files {
  import opened Wrappers
  import opened Types
  import Paths

  type Disk = map<string, seq<byte>>

  /** Size of the copy buffer of `Append`. */
  const BufSize: nat := 1024

  /** How the environment answers `Append`'s system calls. */
  datatype WriteFault =
    | NoFault
    | OpenFails                 // opening the file fails
    | WriteFailsAt(call: nat, partial: nat)
      // the write call with this index (from 0) fails after writing `partial` bytes of its
      // block; a failing write always writes fewer bytes than it was given

  /** Bytes a failing write of a `len`-byte block leaves on the file: fewer than `len`. */
  function ShortWrite(partial: nat, len: nat): (w: nat)
    requires len > 0
    ensures w < len
    ensures partial < len ==> w == partial
  {
    if partial < len then partial else len - 1
  }

  /** Content of `path`; a missing file reads as empty (as `O_CREATE` makes it). */
  function Content(d: Disk, path: string): (c: seq<byte>)
    ensures path in d ==> c == d[path]
  {
    if path in d then d[path] else []
  }

  datatype Created = Created(disk: Disk, dirPath: string, err: Option<Error>)

  /** `files.Create`: make the parent directory, then create or truncate the file. */
  function Create(d: Disk, path: string, ok: bool): (r: Created)
    ensures r.err.None? <==> ok
    ensures r.err.None? ==> path in r.disk && r.disk[path] == []
    ensures r.err.Some? ==> r.disk == d
    ensures forall p :: p != path ==> (p in r.disk <==> p in d) && (p in d ==> r.disk[p] == d[p])
    ensures '/' !in path ==> r.dirPath == ""
    ensures '/' in path ==> path == r.dirPath + "/" + Paths.BaseName(path)
  {
    Paths.PathDecomposition(path);
    var dir := Paths.DirPath(path);
    if ok then Created(d[path := []], dir, None) else Created(d, dir, Some(ErrOpen))
  }

  datatype Written = Written(disk: Disk, err: Option<Error>)

  /**
   * `files.Remove`: removing a missing file is an error; removing an existing one may
   * still fail (`ok`), for instance for lack of permission. A failure changes nothing.
   */
  function Remove(d: Disk, path: string, ok: bool): (r: Written)
    ensures r.err.None? <==> path in d && ok
    ensures path !in d ==> r.err == Some(ErrNotExist)
    ensures path in d && !ok ==> r.err == Some(ErrRemove)
    ensures r.err.None? ==> path !in r.disk
    ensures r.err.Some? ==> r.disk == d
    ensures forall p :: p != path ==> (p in r.disk <==> p in d) && (p in d ==> r.disk[p] == d[p])
  {
    if path !in d then Written(d, Some(ErrNotExist))
    else if !ok then Written(d, Some(ErrRemove))
    else Written(d - {path}, None)
  }

  /** Whether an append of `n` bytes runs to the end under `fault`. */
  predicate Completes(fault: WriteFault, n: nat)
  {
    match fault
    case NoFault => true
    case OpenFails => false
    case WriteFailsAt(k, _) => n <= k * BufSize
  }

  /** Length of the block that write call `k` of an `n`-byte copy is given. */
  function BlockLen(n: nat, k: nat): (len: nat)
    requires k * BufSize < n
    ensures 0 < len <= BufSize && k * BufSize + len <= n
    ensures len < BufSize ==> k * BufSize + len == n
  {
    Seqs.Min(n - k * BufSize, BufSize)
  }

  /**
   * What `files.Append` leaves behind: `data` is appended to the file's content (which is
   * created empty if missing); a failing write stops the copy after the blocks before it
   * and the part of its own block it managed to write.
   */
  function AppendSpec(d: Disk, path: string, data: seq<byte>, fault: WriteFault): (r: Written)
    ensures fault.OpenFails? ==> r == Written(d, Some(ErrOpen))
    ensures r.err.None? <==> Completes(fault, |data|)
    ensures r.err.None? || r.err == Some(ErrOpen) || r.err == Some(ErrWrite)
    ensures r.err.None? ==> path in r.disk && r.disk[path] == Content(d, path) + data
    ensures r.err == Some(ErrWrite) ==>
              path in r.disk &&
              exists k :: 0 <= k < |data| && r.disk[path] == Content(d, path) + data[..k]
    ensures forall p :: p != path ==> (p in r.disk <==> p in d) && (p in d ==> r.disk[p] == d[p])
  {
    match fault
    case OpenFails => Written(d, Some(ErrOpen))
    case WriteFailsAt(k, partial) =>
      if k * BufSize < |data| then
        var w := ShortWrite(partial, BlockLen(|data|, k));
        Written(d[path := Content(d, path) + data[..k * BufSize + w]], Some(ErrWrite))
      else
        Written(d[path := Content(d, path) + data], None)
    case NoFault => Written(d[path := Content(d, path) + data], None)
  }

  /**
   * A failed append leaves the whole blocks written before the failing call, then the
   * part of that call's block it wrote.
   */
  lemma AppendFailedWrite(d: Disk, path: string, data: seq<byte>, fault: WriteFault)
    requires AppendSpec(d, path, data, fault).err == Some(ErrWrite)
    ensures fault.WriteFailsAt? && fault.call * BufSize < |data|
    ensures AppendSpec(d, path, data, fault).disk[path] ==
              Content(d, path) + data[..fault.call * BufSize + ShortWrite(fault.partial, BlockLen(|data|, fault.call))]
  {
  }

  /**
   * The copy loop of `files.Append`: read up to one buffer of `data`, write it, repeat
   * until the reader is exhausted or a write fails. `writes` are the blocks handed to the
   * file's `Write`, every one full but the last; `copied` bytes reached the file.
   */
  method CopyBlocks(data: seq<byte>, fault: WriteFault)
    returns (copied: nat, failed: bool, writes: seq<seq<byte>>)
    ensures forall i :: 0 <= i < |writes| ==> 0 < |writes[i]| <= BufSize
    ensures forall i :: 0 <= i < |writes| - 1 ==> |writes[i]| == BufSize
    ensures Seqs.Flatten(writes) <= data
    ensures failed <==> fault.WriteFailsAt? && fault.call * BufSize < |data|
    ensures !failed ==> copied == |data| && Seqs.Flatten(writes) == data
    ensures failed ==>
              |writes| == fault.call + 1 &&
              |writes[fault.call]| == BlockLen(|data|, fault.call) &&
              copied == fault.call * BufSize + ShortWrite(fault.partial, BlockLen(|data|, fault.call))
  {
    writes := [];
    var buf := new byte[BufSize];
    var pos := 0;
    var call := 0;
    while pos < |data|
      invariant 0 <= pos <= |data|
      invariant pos <= call * BufSize
      invariant pos < |data| ==> pos == call * BufSize
      invariant |writes| == call
      invariant fault.WriteFailsAt? ==> call <= fault.call
      invariant Seqs.Flatten(writes) == data[..pos]
      invariant forall i :: 0 <= i < |writes| ==> 0 < |writes[i]| <= BufSize
      invariant forall i :: 0 <= i < |writes| - 1 ==> |writes[i]| == BufSize
      invariant pos < |data| ==> forall i :: 0 <= i < |writes| ==> |writes[i]| == BufSize
      decreases |data| - pos
    {
      var n := if |data| - pos < BufSize then |data| - pos else BufSize;
      forall k | 0 <= k < n {
        buf[k] := data[pos + k];
      }
      var block := buf[..n];
      assert block == data[pos..pos + n];
      Seqs.FlattenAppend(writes, [block]);
      assert data[..pos + n] == data[..pos] + block;
      if fault.WriteFailsAt? && fault.call == call {
        assert n == BlockLen(|data|, call);
        return pos + ShortWrite(fault.partial, n), true, writes + [block];
      }
      writes := writes + [block];
      pos := pos + n;
      call := call + 1;
    }
    if fault.WriteFailsAt? {
      MulMonotonic(call, fault.call, BufSize);
    }
    return pos, false, writes;
  }

  /**
   * `files.Append`: open (creating if missing) in append mode, then run the copy loop.
   * `writes` are the blocks handed to the file's `Write`, each at most one buffer long.
   */
  method Append(d: Disk, path: string, data: seq<byte>, fault: WriteFault)
    returns (r: Written, writes: seq<seq<byte>>)
    ensures r == AppendSpec(d, path, data, fault)
    ensures forall i :: 0 <= i < |writes| ==> 0 < |writes[i]| <= BufSize
    ensures Seqs.Flatten(writes) <= data
    ensures r.err.None? ==> Seqs.Flatten(writes) == data
  {
    if fault.OpenFails? {
      return Written(d, Some(ErrOpen)), [];
    }
    var copied, failed;
    copied, failed, writes := CopyBlocks(data, fault);
    if failed {
      r := Written(d[path := Content(d, path) + data[..copied]], Some(ErrWrite));
      assert r == AppendSpec(d, path, data, fault);
    } else {
      assert data[..copied] == data;
      r := Written(d[path := Content(d, path) + data], None);
    }
  }

  lemma MulMonotonic(a: nat, b: nat, c: nat)
    requires a <= b
    ensures a * c <= b * c
  {
  }

  /** The repository's example: "hello" to a missing file, then "world", gives "helloworld". */
  lemma AppendTwice(d: Disk, path: string, hello: seq<byte>, world: seq<byte>)
    requires path !in d
    ensures var r1 := AppendSpec(d, path, hello, NoFault);
            var r2 := AppendSpec(r1.disk, path, world, NoFault);
            r1.disk[path] == hello && r2.disk[path] == hello + world
  {
  }
}
