/**
 An abstract file store standing in for Node's synchronous `fs` calls: a map
 from path to full file contents. Only the two calls the writer uses are
 modelled, and both are atomic by assumption.
 */
module FileSystem {
  import opened Wrappers

  /** Path to full contents of the file stored there. */
  type Files = map<string, string>

  /** A filesystem call that completed. */
  datatype FsOp = WriteOp(file: string, data: string) | RenameOp(from: string, to: string)

  /** The error a filesystem call threw. */
  datatype FsError = WriteFailed(file: string) | RenameFailed(from: string, to: string)

  /** Contents at `p`, or None when no file is there. */
  function Lookup(fs: Files, p: string): Option<string>
  {
    if p in fs then Some(fs[p]) else None
  }

  /** `writeFileSync`: create or truncate `file` and store `data` in full. */
  function WriteFile(fs: Files, file: string, data: string): (r: Files)
    ensures Lookup(r, file) == Some(data)
    ensures forall p :: p != file ==> Lookup(r, p) == Lookup(fs, p)
  {
    fs[file := data]
  }

  /**
   `renameSync`: replace whatever is at `to` by the file at `from`. A missing
   source is an error (ENOENT) and changes nothing.
   */
  function Rename(fs: Files, from: string, to: string): (r: Result<Files, FsError>)
    ensures r.Failure? <==> from !in fs
    ensures r.Failure? ==> r.error == RenameFailed(from, to)
    ensures r.Success? ==> Lookup(r.value, to) == Lookup(fs, from)
    ensures r.Success? && from != to ==> Lookup(r.value, from) == None
    ensures r.Success? ==> forall p :: p != from && p != to ==> Lookup(r.value, p) == Lookup(fs, p)
  {
    if from !in fs then Failure(RenameFailed(from, to))
    else Success((fs - {from})[to := fs[from]])
  }

  /** Replays one completed call against a store. */
  function Perform(fs: Files, op: FsOp): Result<Files, FsError>
  {
    match op
    case WriteOp(file, data) => Success(WriteFile(fs, file, data))
    case RenameOp(from, to) => Rename(fs, from, to)
  }

  /** Replays a sequence of calls, stopping at the first that fails. */
  function Replay(fs: Files, ops: seq<FsOp>): Result<Files, FsError>
    decreases |ops|
  {
    if |ops| == 0 then Success(fs)
    else
      match Perform(fs, ops[0])
      case Failure(e) => Failure(e)
      case Success(fs1) => Replay(fs1, ops[1..])
  }

  /** Replaying `a + b` is replaying `a`, then `b` from where `a` left off. */
  lemma {:induction false} ReplayAppend(fs: Files, a: seq<FsOp>, b: seq<FsOp>)
    ensures Replay(fs, a + b) ==
            match Replay(fs, a)
            case Failure(e) => Failure(e)
            case Success(fs1) => Replay(fs1, b)
    decreases |a|
  {
    if |a| == 0 {
      assert a + b == b;
    } else {
      assert (a + b)[0] == a[0];
      assert (a + b)[1..] == a[1..] + b;
      match Perform(fs, a[0])
      case Failure(e) =>
      case Success(fs1) => ReplayAppend(fs1, a[1..], b);
    }
  }
}
