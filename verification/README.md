# AloeDB `Writer` — a verified model of the coalescing atomic file writer

AloeDB persists its whole database by handing a serialised snapshot to a
`Writer`. The writer owns one target `path`, a commit flag `locked`, and a
one-slot pending payload `next`. `write(data)` works in one of two ways:

- **Locked:** it parks `data` in `next`, replacing anything already there.
- **Unlocked:** it commits `data`. It sets the flag, writes
  `path + ".temp"`, renames that file onto `path` and clears the flag. If
  `next` is then truthy, it empties the slot and writes that value.

The model has these parts:

- `wrappers.dfy`: `Option` for `string | null`, and `Result` for a call that may throw.
- `filesystem.dfy` (`FileSystem`): the store as `map<string, string>`.
  `WriteFile` stands for `writeFileSync` and `Rename` for `renameSync`.
  `Replay` replays a trace of completed calls.
- `writer.dfy` (`FileWriter`): the writer's fields, the constructor `New`,
  the temporary path, one `Commit`, and the recursive synchronous `Write`.
  Every `Write` returns the filesystem calls it completed, in order, and the
  error it threw, if any.
- `steps.dfy` (`CommitSteps`): the same writer with each commit split in two.
  `Begin` locks and writes the temporary file. `Finish` renames, unlocks and
  drains the slot. Requests can arrive between the two steps, which is where
  coalescing is visible. `SplitRefinesWrite` proves that with no requests in
  between, the split machine matches the synchronous `Write`. `DrainRefinesWrite`
  proves the same for a commit that drains a request parked while it ran.
- `properties.dfy` (`WriterProperties`): lemmas relating several calls or
  whole traces.

Failures of the two filesystem calls come from a fault oracle, a
`seq<Fault>` consumed one entry per commit. `renameSync` also fails on its
own, as ENOENT, when the source file is missing. A thrown error undoes
nothing: the flag stays set, exactly as in the code.

Two behaviours of the code are easy to miss. The model follows the code in
both:

- **Empty payload.** The code's comment at `src/lib/writer.ts:53` says the
  next write starts "if there is data in the queue". The test itself,
  `if (this.next)`, treats `""` as absent. So a pending empty payload is
  never committed and never cleared, even though it was queued.
  `WriteFromIdle` and `BurstCoalesces` state this case explicitly.
- **Failed commit.** No cleanup runs after a failed temporary write or
  rename (lines 43-51), so the flag stays set. Every later write only
  replaces `next` (`FailureWedges`).

## Model

| member | source | states |
|---|---|---|
| FileWriter.New | src/lib/writer.ts:26-28 | a new writer is unlocked, has nothing pending, and keeps `path` exactly as given (field initialisers at lines 10-13) |
| FileWriter.TempPath | src/lib/writer.ts:46 | the temporary path is `path` followed by the constant `.temp` (line 19), so it always differs from `path` |
| FileSystem.WriteFile | src/lib/writer.ts:47 | `writeFileSync` leaves `data` in full at its file and changes no other file |
| FileSystem.Rename | src/lib/writer.ts:48 | `renameSync` fails exactly when the source is missing. Otherwise the destination gets the source's contents, the source disappears, and no other file changes |
| FileWriter.Commit | src/lib/writer.ts:42-51 | a successful commit writes only the temporary file, then renames it. The target then holds `data`, the temporary file is gone, the flag is clear, and `next` is untouched. A failed call leaves the flag set. A failed write leaves the store unchanged; a failed rename leaves the temporary file behind |
| FileWriter.Write | src/lib/writer.ts:34-59 | while locked, `write` only replaces `next` and leaves the flag, path and store as they were. A write that returns normally from an unlocked writer leaves the flag clear, and a throw leaves it set. With no faults it never throws. Its calls are always temp-write/rename pairs, and replaying them gives the final store |
| CommitSteps.Start | src/lib/writer.ts:10-28 | a new writer is idle with an empty slot and satisfies the machine invariant |
| CommitSteps.Begin | src/lib/writer.ts:42-47 | starting a commit sets the flag and either writes the payload to the temporary file or wedges without touching the store |
| CommitSteps.Request | src/lib/writer.ts:34-47 | a request while a commit runs or is wedged only replaces `next` and starts no commit, which gives mutual exclusion. A request while idle starts a commit |
| CommitSteps.Requests | src/lib/writer.ts:37-40 | a burst of requests during a commit changes no file and leaves only the last payload pending |
| CommitSteps.Finish | src/lib/writer.ts:48-58 | a failed rename wedges the writer and leaves `next` and the store untouched. Otherwise finishing moves the temporary file's contents to the target and drains the slot exactly when `next` is truthy: the slot is emptied, even if the drained commit's temporary write then fails, and that commit begins. When `next` is falsy it goes idle with `next` kept |
| CommitSteps.Settle | src/lib/writer.ts:53-58 | letting commits finish always ends with no commit running, and the invariant still holds |
| WriterProperties.WriteFromIdle | src/lib/writer.ts:42-58 | on a healthy store, one write commits `data` and then, if `next` is truthy, the pending value, which then wins at the target. It ends unlocked with nothing left to drain. A pending `""` stays pending and is not committed |
| WriterProperties.LockedStaysLocked | src/lib/writer.ts:37-40 | any number of writes to a locked writer complete no filesystem call, leave the store alone and keep only the last payload pending |
| WriterProperties.FailureWedges | src/lib/writer.ts:43-51 | after a write throws, the writer stays locked and no later write ever reaches the store |
| WriterProperties.SequentialLastWriterWins | src/lib/writer.ts:34-58 | on a healthy store, a series of writes from an idle writer leaves the last payload at the target |
| WriterProperties.AtomicVisibility | src/lib/writer.ts:46-48 | after any prefix of a writer's calls, the target holds its old content until the first rename, and afterwards exactly the last fully committed payload |
| WriterProperties.WriteIsAtomic | src/lib/writer.ts:46-48 | every intermediate store one `write` passes through shows, at the target, the previous content or a payload that call committed in full |
| WriterProperties.SplitRefinesWrite | src/lib/writer.ts:34-58 | with no request in between, the begin/finish machine reaches the same state, calls and failure as the synchronous `write` |
| WriterProperties.DrainRefinesWrite | src/lib/writer.ts:53-58 | the drain agrees in both versions. A non-empty request parked while a commit begins, followed by letting everything finish, gives the same state, calls and failure as a synchronous `write` from an unlocked writer with that payload pending, whatever faults occur |
| WriterProperties.BurstCoalesces | src/lib/writer.ts:37-58 | on a healthy store, after requests that arrive during a commit, only the last payload is ever written, and it is at the target once everything settles. The exception is an empty last payload, which stays pending while the target keeps the in-flight payload |

## Left out

- Real Node `fs` behaviour is abstracted to a map. This covers durability, OS error kinds and partial writes. Both calls are assumed atomic.
- Concurrency and preemption: JavaScript runs the synchronous calls without interleaving. The begin/finish split in `CommitSteps` is the only interleaving modelled.
- The `pretty` parameter named in the constructor's doc comment (line 24) does not exist in the code.
- Serialisation of the payload: the payload is an opaque `string`.
- The recursion in `write` is at most one level deep on every path, because the drained call starts with an empty slot. Unbounded call-stack growth therefore does not arise and is not modelled.
