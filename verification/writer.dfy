/**
 The `Writer` of src/lib/writer.ts: a commit flag, a one-slot pending payload
 and a fixed target path. `Write` is the synchronous `write(data)` call,
 including its recursive drain of the pending slot.
 */
module FileWriter {
  import opened Wrappers
  import opened FileSystem

  /** Suffix of the temporary sibling file (`extension`). */
  const Extension: string := ".temp"

  /** The file a commit writes before renaming it onto `path`. */
  function TempPath(path: string): (temp: string)
    ensures temp != path
    ensures |temp| == |path| + |Extension|
    ensures temp[..|path|] == path
    ensures temp[|path|..] == Extension
  {
    path + Extension
  }

  /** The writer's own fields: `path`, `next` and `locked`. */
  datatype Writer = Writer(path: string, next: Option<string>, locked: bool)

  /** The constructor: unlocked, nothing pending, `path` kept as given. */
  function New(path: string): (w: Writer)
    ensures w.path == path && w.next == None && !w.locked
  {
    Writer(path, None, false)
  }

  /** JavaScript truthiness of a `string | null`: both null and "" are falsy. */
  predicate Truthy(next: Option<string>)
  {
    next.Some? && next.value != ""
  }

  /** A writer together with the store it writes to. */
  datatype State = State(w: Writer, fs: Files)

  /**
   Whether the filesystem fails a commit, and at which call. Faults are an
   oracle supplied by the environment, consumed one per commit.
   */
  datatype Fault = NoFault | WriteFails | RenameFails

  function Head(faults: seq<Fault>): Fault
  {
    if |faults| == 0 then NoFault else faults[0]
  }

  function Tail(faults: seq<Fault>): seq<Fault>
  {
    if |faults| == 0 then [] else faults[1..]
  }

  /** No commit driven by this oracle fails. */
  predicate FaultFree(faults: seq<Fault>)
  {
    forall i :: 0 <= i < |faults| ==> faults[i] == NoFault
  }

  /**
   What a `write` call leaves behind: the state, the filesystem calls that
   completed in order, and the error it threw, if any. A thrown error does
   not undo anything done before it.
   */
  datatype Outcome = Outcome(state: State, ops: seq<FsOp>, thrown: Option<FsError>)

  /**
   The shape of every trace a writer produces: a series of commits, each a
   write of the temporary file followed by its rename onto `path`, the last
   of which may stop after the write. `path` itself is never written.
   */
  predicate Paired(ops: seq<FsOp>, path: string)
    decreases |ops|
  {
    |ops| == 0 ||
    (&& ops[0].WriteOp?
     && ops[0].file == TempPath(path)
     && (|ops| == 1 || (ops[1] == RenameOp(TempPath(path), path) && Paired(ops[2..], path))))
  }

  /** The payloads a trace made visible at the target: one per write-then-rename pair. */
  function Commits(ops: seq<FsOp>): seq<string>
    decreases |ops|
  {
    if |ops| == 0 then []
    else if |ops| >= 2 && ops[0].WriteOp? && ops[1].RenameOp? then [ops[0].data] + Commits(ops[2..])
    else Commits(ops[1..])
  }

  /** The locked branch: the payload replaces whatever was pending. */
  function Park(s: State, data: string): State
  {
    State(s.w.(next := Some(data)), s.fs)
  }

  /**
   One durable commit: lock, write the temporary file, rename it onto the
   target, unlock. A failing call leaves the writer locked.
   */
  function Commit(s: State, data: string, fault: Fault): (r: Outcome)
    ensures r.state.w.path == s.w.path && r.state.w.next == s.w.next
    ensures r.thrown.None? <==> fault == NoFault
    ensures r.thrown.Some? ==> r.state.w.locked
    ensures r.thrown.None? ==>
              && !r.state.w.locked
              && r.ops == [WriteOp(TempPath(s.w.path), data), RenameOp(TempPath(s.w.path), s.w.path)]
              && Lookup(r.state.fs, s.w.path) == Some(data)
              && Lookup(r.state.fs, TempPath(s.w.path)) == None
    ensures fault == WriteFails ==> r.state.fs == s.fs && r.ops == []
    ensures fault == RenameFails ==>
              r.state.fs == s.fs[TempPath(s.w.path) := data] && r.ops == [WriteOp(TempPath(s.w.path), data)]
    ensures forall p :: p != s.w.path && p != TempPath(s.w.path) ==> Lookup(r.state.fs, p) == Lookup(s.fs, p)
    ensures Paired(r.ops, s.w.path)
    ensures Replay(s.fs, r.ops) == Success(r.state.fs)
  {
    var locked := s.w.(locked := true);
    var temp := TempPath(s.w.path);
    if fault == WriteFails then
      Outcome(State(locked, s.fs), [], Some(WriteFailed(temp)))
    else
      var written := WriteFile(s.fs, temp, data);
      if fault == RenameFails then
        Outcome(State(locked, written), [WriteOp(temp, data)], Some(RenameFailed(temp, s.w.path)))
      else
        assert Lookup(written, temp) == Some(data);
        var renamed := Rename(written, temp, s.w.path);
        var ops := [WriteOp(temp, data), RenameOp(temp, s.w.path)];
        assert fault == NoFault;
        assert ops[1..] == [RenameOp(temp, s.w.path)];
        assert Replay(written, ops[1..]) == Replay(renamed.value, []);
        Outcome(State(locked.(locked := false), renamed.value), ops, None)
  }

  /**
   `write(data)`. Locked: park `data` in the pending slot and return.
   Unlocked: commit `data`, then, if the pending slot is truthy, empty it and
   write its value.
   */
  function Write(s: State, data: string, faults: seq<Fault>): (r: Outcome)
    decreases if Truthy(s.w.next) then 1 else 0
    ensures r.state.w.path == s.w.path
    ensures s.w.locked ==> r.state == State(s.w.(next := Some(data)), s.fs) && r.ops == [] && r.thrown == None
    ensures !s.w.locked && r.thrown.None? ==> !r.state.w.locked
    ensures r.thrown.Some? ==> r.state.w.locked
    ensures !s.w.locked && FaultFree(faults) ==> r.thrown.None?
    ensures Paired(r.ops, s.w.path)
    ensures Replay(s.fs, r.ops) == Success(r.state.fs)
  {
    if s.w.locked then Outcome(Park(s, data), [], None)
    else
      var c := Commit(s, data, Head(faults));
      if c.thrown.Some? || !Truthy(c.state.w.next) then c
      else
        var pending := c.state.w.next.value;
        var rest := Write(State(c.state.w.(next := None), c.state.fs), pending, Tail(faults));
        ReplayAppend(s.fs, c.ops, rest.ops);
        assert (c.ops + rest.ops)[2..] == rest.ops;
        Outcome(rest.state, c.ops + rest.ops, rest.thrown)
  }
}
