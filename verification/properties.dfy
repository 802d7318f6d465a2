/** Properties of the writer that relate several calls or whole traces. */
module WriterProperties {
  import opened Wrappers
  import opened FileSystem
  import opened FileWriter
  import opened CommitSteps

  /**
   A `write` from an unlocked writer with a healthy filesystem: it commits
   `data`, then drains a truthy pending payload, so the last payload wins.
   An empty pending payload is falsy: it is neither committed nor cleared.
   */
  lemma WriteFromIdle(s: State, data: string, faults: seq<Fault>)
    requires !s.w.locked && FaultFree(faults)
    ensures var r := Write(s, data, faults);
            && r.thrown == None
            && !r.state.w.locked
            && Commits(r.ops) == (if Truthy(s.w.next) then [data, s.w.next.value] else [data])
            && r.state.w.next == (if Truthy(s.w.next) then None else s.w.next)
            && Lookup(r.state.fs, s.w.path) == Some(if Truthy(s.w.next) then s.w.next.value else data)
            && Lookup(r.state.fs, TempPath(s.w.path)) == None
            && !Truthy(r.state.w.next)
  {
    var c := Commit(s, data, Head(faults));
    assert Head(faults) == NoFault;
    assert Commits(c.ops) == [data] by {
      assert c.ops[2..] == [];
    }
    if Truthy(s.w.next) {
      var v := s.w.next.value;
      var s1 := State(c.state.w.(next := None), c.state.fs);
      assert FaultFree(Tail(faults));
      var rest := Write(s1, v, Tail(faults));
      var c1 := Commit(s1, v, Head(Tail(faults)));
      assert rest == c1;
      assert c1.ops[2..] == [];
      assert Commits(c1.ops) == [v];
      assert (c.ops + rest.ops)[2..] == rest.ops;
    }
  }

  /**
   A caller that issues several writes in turn and carries on after any that
   throws; `plan[i]` is the fault oracle for the i-th call.
   */
  function WriteAll(s: State, ds: seq<string>, plan: seq<seq<Fault>>): (r: Outcome)
    decreases |ds|
    ensures r.state.w.path == s.w.path
    ensures Replay(s.fs, r.ops) == Success(r.state.fs)
  {
    if |ds| == 0 then Outcome(s, [], None)
    else
      var first := Write(s, ds[0], if |plan| == 0 then [] else plan[0]);
      var rest := WriteAll(first.state, ds[1..], if |plan| == 0 then [] else plan[1..]);
      ReplayAppend(s.fs, first.ops, rest.ops);
      Outcome(rest.state, first.ops + rest.ops, if rest.thrown.Some? then rest.thrown else first.thrown)
  }

  /**
   A locked writer never commits again: every later write only replaces the
   pending payload, and the store is untouched.
   */
  lemma {:induction false} LockedStaysLocked(s: State, ds: seq<string>, plan: seq<seq<Fault>>)
    requires s.w.locked
    ensures var r := WriteAll(s, ds, plan);
            && r.ops == [] && r.thrown == None
            && r.state.fs == s.fs && r.state.w.locked
            && r.state.w.next == (if |ds| == 0 then s.w.next else Some(ds[|ds| - 1]))
    decreases |ds|
  {
    if |ds| > 0 {
      var first := Write(s, ds[0], if |plan| == 0 then [] else plan[0]);
      LockedStaysLocked(first.state, ds[1..], if |plan| == 0 then [] else plan[1..]);
    }
  }

  /**
   A failed temporary write or rename is not cleaned up: the writer stays
   locked, so no later write reaches the store.
   */
  lemma FailureWedges(s: State, data: string, faults: seq<Fault>, later: seq<string>, plan: seq<seq<Fault>>)
    requires Write(s, data, faults).thrown.Some?
    ensures var r := Write(s, data, faults);
            && r.state.w.locked
            && WriteAll(r.state, later, plan).state.fs == r.state.fs
            && WriteAll(r.state, later, plan).ops == []
  {
    LockedStaysLocked(Write(s, data, faults).state, later, plan);
  }

  /**
   With a healthy filesystem, a series of synchronous writes from an idle
   writer leaves the last payload at the target and the writer idle.
   */
  lemma {:induction false} SequentialLastWriterWins(s: State, ds: seq<string>)
    requires !s.w.locked && !Truthy(s.w.next) && |ds| > 0
    ensures var r := WriteAll(s, ds, []);
            && r.thrown == None && !r.state.w.locked && !Truthy(r.state.w.next)
            && Lookup(r.state.fs, s.w.path) == Some(ds[|ds| - 1])
    decreases |ds|
  {
    WriteFromIdle(s, ds[0], []);
    if |ds| > 1 {
      SequentialLastWriterWins(Write(s, ds[0], []).state, ds[1..]);
    }
  }

  /** A paired trace completes one commit per two calls. */
  lemma {:induction false} PairedCommits(ops: seq<FsOp>, path: string)
    requires Paired(ops, path)
    ensures |Commits(ops)| == |ops| / 2
    ensures |ops| >= 2 ==> Commits(ops) == [ops[0].data] + Commits(ops[2..])
    decreases |ops|
  {
    if |ops| >= 2 {
      PairedCommits(ops[2..], path);
    } else if |ops| == 1 {
      assert Commits(ops) == Commits(ops[1..]);
    }
  }

  /**
   Atomic replacement: after any prefix of a writer's trace, the target holds
   its original content until the first rename, and afterwards exactly the
   payload of the last completed commit, never a partial write.
   */
  lemma {:induction false} AtomicVisibility(fs: Files, ops: seq<FsOp>, path: string, k: nat)
    requires Paired(ops, path) && k <= |ops|
    ensures |Commits(ops)| == |ops| / 2
    ensures Replay(fs, ops[..k]).Success?
    ensures Lookup(Replay(fs, ops[..k]).value, path) ==
            if k < 2 then Lookup(fs, path) else Some(Commits(ops)[k / 2 - 1])
    decreases |ops|
  {
    PairedCommits(ops, path);
    var temp := TempPath(path);
    if k == 0 {
      assert ops[..0] == [];
    } else if k == 1 {
      assert ops[..1][1..] == [];
    } else {
      var first := ops[..2];
      var fs1 := (WriteFile(fs, temp, ops[0].data) - {temp})[path := ops[0].data];
      assert first[1..] == [ops[1]];
      assert Replay(fs, first) == Success(fs1) by {
        var written := WriteFile(fs, temp, ops[0].data);
        assert first[0] == WriteOp(temp, ops[0].data);
        assert Perform(fs, first[0]) == Success(written);
        assert temp in written;
        assert Rename(written, temp, path) == Success(fs1);
        assert Perform(written, first[1..][0]) == Success(fs1);
        assert first[1..][1..] == [];
        assert Replay(written, first[1..]) == Replay(fs1, []);
      }
      assert ops[..k] == first + ops[2..][..k - 2];
      ReplayAppend(fs, first, ops[2..][..k - 2]);
      AtomicVisibility(fs1, ops[2..], path, k - 2);
      assert Lookup(fs1, path) == Some(ops[0].data);
    }
  }

  /**
   Every intermediate store a single `write` call passes through shows, at the
   target, either what was there before the call or a payload it committed
   in full.
   */
  lemma WriteIsAtomic(s: State, data: string, faults: seq<Fault>, k: nat)
    requires k <= |Write(s, data, faults).ops|
    ensures var r := Write(s, data, faults);
            && Replay(s.fs, r.ops[..k]).Success?
            && var seen := Lookup(Replay(s.fs, r.ops[..k]).value, s.w.path);
               seen == Lookup(s.fs, s.w.path) || exists i :: 0 <= i < |Commits(r.ops)| && seen == Some(Commits(r.ops)[i])
  {
    var r := Write(s, data, faults);
    AtomicVisibility(s.fs, r.ops, s.w.path, k);
    PairedCommits(r.ops, s.w.path);
    if k >= 2 {
      var i := k / 2 - 1;
      assert Lookup(Replay(s.fs, r.ops[..k]).value, s.w.path) == Some(Commits(r.ops)[i]);
    }
  }

  /**
   Splitting a commit changes nothing when no request arrives before it
   finishes: from an idle writer, `Request` then `Settle` reaches the state,
   the calls and the failure of the synchronous `Write`.
   */
  lemma SplitRefinesWrite(m: Machine, data: string)
    requires Valid(m) && m.phase.Idle?
    ensures var w := Write(m.s, data, m.faults);
            var b := Request(m, data);
            var t := Settle(b.m);
            && t.m.s == w.state
            && b.ops + t.ops == w.ops
            && (t.m.phase.Wedged? <==> w.thrown.Some?)
  {
  }

  /** Two requests to an idle writer: the first begins a commit, the second is parked. */
  lemma TwoRequests(m: Machine, d: string, p: string)
    requires Valid(m) && m.phase.Idle?
    ensures var first := Begin(m, d);
            Requests(m, [d, p]) == Step(first.m.(s := Park(first.m.s, p)), first.ops)
  {
  }

  /** The drained commit, once the first rename has gone through. */
  lemma DrainedCommitMatches(m: Machine, d: string, p: string)
    requires Valid(m) && m.phase.Idle? && p != "" && Head(m.faults) == NoFault
    ensures var sp := m.s.(w := m.s.w.(next := Some(p)));
            var w := Write(sp, d, m.faults);
            var first := Begin(m, d);
            var bm := first.m.(s := Park(first.m.s, p));
            var t := Settle(bm);
            && t.m.s == w.state
            && first.ops + t.ops == w.ops
            && (t.m.phase.Wedged? <==> w.thrown.Some?)
  {
    var sp := m.s.(w := m.s.w.(next := Some(p)));
    var first := Begin(m, d);
    var bm := first.m.(s := Park(first.m.s, p));
    var c := Commit(sp, d, NoFault);
    var rest := Write(State(c.state.w.(next := None), c.state.fs), p, Tail(m.faults));
    assert Write(sp, d, m.faults) == Outcome(rest.state, c.ops + rest.ops, rest.thrown);
    var f := Finish(bm);
    assert f.m.s.w.next == None;
    if f.m.phase.Committing? {
      var g := Finish(f.m);
      assert Settle(f.m) == Step(g.m, g.ops + []);
      assert Settle(bm) == Step(g.m, f.ops + (g.ops + []));
    } else {
      assert Settle(f.m) == Step(f.m, []);
      assert Settle(bm) == Step(f.m, f.ops + []);
    }
  }

  /**
   The drain in both versions agrees: a request that arrives while a commit
   of `d` is running leaves `p` pending, and letting everything finish
   reaches the state, the calls and the failure of the synchronous `Write`
   of `d` from an unlocked writer with `p` pending.
   */
  lemma DrainRefinesWrite(m: Machine, d: string, p: string)
    requires Valid(m) && m.phase.Idle? && p != ""
    ensures var w := Write(m.s.(w := m.s.w.(next := Some(p))), d, m.faults);
            var b := Requests(m, [d, p]);
            var t := Settle(b.m);
            && t.m.s == w.state
            && b.ops + t.ops == w.ops
            && (t.m.phase.Wedged? <==> w.thrown.Some?)
  {
    TwoRequests(m, d, p);
    var first := Begin(m, d);
    var bm := first.m.(s := Park(first.m.s, p));
    if Head(m.faults) == WriteFails {
      assert Settle(bm) == Step(bm, []);
    } else if Head(m.faults) == RenameFails {
      var f := Finish(bm);
      assert Settle(bm) == Step(f.m, f.ops + []);
    } else {
      DrainedCommitMatches(m, d, p);
    }
  }

  /**
   Coalescing: requests that arrive while a commit runs leave only the last
   payload pending; once the running commit and the drain finish, that last
   payload is at the target and no superseded payload was ever written. An
   empty last payload is the exception: it is falsy, so it is never drained.
   */
  lemma BurstCoalesces(m: Machine, ps: seq<string>)
    requires Valid(m) && m.phase.Committing? && !m.phase.renameFails && FaultFree(m.faults)
    requires |ps| > 0
    ensures var b := Requests(m, ps);
            var t := Settle(b.m);
            var last := ps[|ps| - 1];
            && b.ops == []
            && t.m.phase.Idle?
            && (forall i :: 0 <= i < |t.ops| && t.ops[i].WriteOp? ==> t.ops[i].data == last)
            && Commits(t.ops) == (if last != "" then [last] else [])
            && Lookup(t.m.s.fs, m.s.w.path) ==
               (if last != "" then Some(last) else Lookup(m.s.fs, TempPath(m.s.w.path)))
            && t.m.s.w.next == (if last != "" then None else Some(""))
  {
    var path := m.s.w.path;
    var temp := TempPath(path);
    var last := ps[|ps| - 1];
    var b := Requests(m, ps);
    var f := Finish(b.m);
    assert Head(m.faults) == NoFault;
    if last != "" {
      assert f.m.phase.Committing? && !f.m.phase.renameFails;
      var g := Finish(f.m);
      assert g.m.phase.Idle?;
      assert Settle(f.m) == Step(g.m, g.ops + []);
      assert f.ops == [RenameOp(temp, path), WriteOp(temp, last)];
      assert g.ops == [RenameOp(temp, path)];
      var ops := f.ops + (g.ops + []);
      assert ops == [RenameOp(temp, path), WriteOp(temp, last), RenameOp(temp, path)];
      assert ops[1..] == [WriteOp(temp, last), RenameOp(temp, path)];
      assert ops[1..][2..] == [];
      assert Commits(ops) == Commits(ops[1..]) == [last];
      assert Settle(b.m) == Step(g.m, ops);
    } else {
      assert f.m.phase.Idle?;
      assert f.ops == [RenameOp(temp, path)];
      assert f.ops[1..] == [];
      assert Settle(b.m) == Step(f.m, f.ops + []);
    }
  }
}
