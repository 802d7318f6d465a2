/**
 The writer with each commit split at the point where the filesystem is
 busy: `Begin` locks and writes the temporary file, `Finish` renames it,
 unlocks and drains the pending slot. Requests may arrive between the two,
 which is how coalescing shows. With no requests in between, `Request`
 followed by `Settle` is exactly the synchronous `Write`.
 */
module CommitSteps {
  import opened Wrappers
  import opened FileSystem
  import opened FileWriter

  /**
   Where control stands: no commit, a commit between its write and its
   rename (whose rename is due to fail or not), or an error thrown out of a
   commit with the writer still locked.
   */
  datatype Phase = Idle | Committing(renameFails: bool) | Wedged(error: FsError)

  /** A writer, its store, its phase and the faults still to come. */
  datatype Machine = Machine(s: State, phase: Phase, faults: seq<Fault>)

  /** A machine after a step, with the filesystem calls the step completed. */
  datatype Step = Step(m: Machine, ops: seq<FsOp>)

  /**
   The flag is set exactly when a commit is running or wedged; an idle writer
   holds nothing it would drain; a running commit's temporary file exists.
   */
  predicate Valid(m: Machine)
  {
    && (m.phase.Idle? <==> !m.s.w.locked)
    && (m.phase.Idle? ==> !Truthy(m.s.w.next))
    && (m.phase.Committing? ==> TempPath(m.s.w.path) in m.s.fs)
  }

  /** A freshly constructed writer over a store. */
  function Start(path: string, fs: Files, faults: seq<Fault>): (m: Machine)
    ensures Valid(m) && m.phase.Idle?
    ensures m.s.w.path == path && m.s.w.next == None && m.s.fs == fs
  {
    Machine(State(New(path), fs), Idle, faults)
  }

  /** Lock, then write `data` to the temporary file. */
  function Begin(m: Machine, data: string): (r: Step)
    ensures Valid(r.m)
    ensures r.m.s.w == m.s.w.(locked := true)
    ensures r.m.faults == Tail(m.faults)
    ensures r.m.phase.Committing? <==> Head(m.faults) != WriteFails
    ensures r.m.phase.Committing? ==>
              && r.m.phase.renameFails == (Head(m.faults) == RenameFails)
              && r.m.s.fs == m.s.fs[TempPath(m.s.w.path) := data]
              && r.ops == [WriteOp(TempPath(m.s.w.path), data)]
    ensures r.m.phase.Wedged? ==> r.m.s.fs == m.s.fs && r.ops == []
  {
    var w := m.s.w.(locked := true);
    var temp := TempPath(m.s.w.path);
    var fault := Head(m.faults);
    if fault == WriteFails then
      Step(Machine(State(w, m.s.fs), Wedged(WriteFailed(temp)), Tail(m.faults)), [])
    else
      Step(Machine(State(w, WriteFile(m.s.fs, temp, data)), Committing(fault == RenameFails), Tail(m.faults)),
           [WriteOp(temp, data)])
  }

  /**
   A `write(data)` call arriving now. While locked (committing or wedged) it
   only replaces the pending payload; when idle it begins a commit.
   */
  function Request(m: Machine, data: string): (r: Step)
    ensures Valid(m) ==> Valid(r.m)
    ensures r.m.s.w.path == m.s.w.path
    ensures r.m.s.w.locked
    ensures m.s.w.locked ==>
              && r.m == m.(s := State(m.s.w.(next := Some(data)), m.s.fs))
              && r.ops == []
    ensures !m.s.w.locked ==>
              && r.m.s.w.next == m.s.w.next && !r.m.phase.Idle?
              && (r.m.phase.Committing? ==> Lookup(r.m.s.fs, TempPath(m.s.w.path)) == Some(data))
  {
    if m.s.w.locked then Step(m.(s := Park(m.s, data)), [])
    else Begin(m, data)
  }

  /** Several `write` calls in a row, with no commit finishing in between. */
  function Requests(m: Machine, ds: seq<string>): (r: Step)
    decreases |ds|
    ensures Valid(m) ==> Valid(r.m)
    ensures r.m.s.w.path == m.s.w.path
    ensures m.s.w.locked ==>
              && r.ops == [] && r.m.s.fs == m.s.fs && r.m.phase == m.phase
              && r.m.faults == m.faults && r.m.s.w.locked
              && r.m.s.w.next == (if |ds| == 0 then m.s.w.next else Some(ds[|ds| - 1]))
  {
    if |ds| == 0 then Step(m, [])
    else
      var first := Request(m, ds[0]);
      var rest := Requests(first.m, ds[1..]);
      Step(rest.m, first.ops + rest.ops)
  }

  /**
   The running commit completes: rename the temporary file onto the target,
   unlock, and if the pending payload is truthy, empty the slot and begin
   committing it.
   */
  function Finish(m: Machine): (r: Step)
    requires Valid(m) && m.phase.Committing?
    ensures Valid(r.m)
    ensures r.m.s.w.path == m.s.w.path
    ensures r.m.s.w.next == (if !m.phase.renameFails && Truthy(m.s.w.next) then None else m.s.w.next)
    ensures r.m.phase.Committing? ==> Truthy(m.s.w.next) && r.m.s.w.next == None
    ensures m.phase.renameFails ==> r.m.phase.Wedged? && r.m.s.fs == m.s.fs && r.ops == []
    ensures !m.phase.renameFails ==>
              && |r.ops| >= 1
              && r.ops[0] == RenameOp(TempPath(m.s.w.path), m.s.w.path)
              && Lookup(r.m.s.fs, m.s.w.path) == Lookup(m.s.fs, TempPath(m.s.w.path))
              && (Truthy(m.s.w.next) <==> !r.m.phase.Idle?)
              && (r.m.phase.Idle? ==> r.m.s.w.next == m.s.w.next && Lookup(r.m.s.fs, TempPath(m.s.w.path)) == None)
              && (r.m.phase.Committing? ==> Lookup(r.m.s.fs, TempPath(m.s.w.path)) == Some(m.s.w.next.value))
    ensures Replay(m.s.fs, r.ops) == Success(r.m.s.fs)
  {
    var path := m.s.w.path;
    var temp := TempPath(path);
    if m.phase.renameFails then
      Step(m.(phase := Wedged(RenameFailed(temp, path))), [])
    else
      var renamed := Rename(m.s.fs, temp, path);
      var done := Machine(State(m.s.w.(locked := false), renamed.value), Idle, m.faults);
      var ops := [RenameOp(temp, path)];
      assert ops[1..] == [];
      if !Truthy(m.s.w.next) then Step(done, ops)
      else
        var b := Begin(done.(s := State(done.s.w.(next := None), done.s.fs)), m.s.w.next.value);
        ReplayAppend(m.s.fs, ops, b.ops);
        Step(b.m, ops + b.ops)
  }

  /** Let running commits finish, with no further requests, until none is running. */
  function Settle(m: Machine): (r: Step)
    requires Valid(m)
    decreases (if m.phase.Committing? then 1 else 0) + (if Truthy(m.s.w.next) then 1 else 0)
    ensures Valid(r.m) && !r.m.phase.Committing?
    ensures r.m.s.w.path == m.s.w.path
    ensures Replay(m.s.fs, r.ops) == Success(r.m.s.fs)
  {
    if !m.phase.Committing? then Step(m, [])
    else
      var f := Finish(m);
      var t := Settle(f.m);
      ReplayAppend(m.s.fs, f.ops, t.ops);
      Step(t.m, f.ops + t.ops)
  }
}
