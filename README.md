# CircularJobRunner, modelled in Dafny

This project models the `CircularJobRunner` of `src/index.ts`: a bounded job
dispatcher that keeps a pending queue ordered by descending priority, admits
jobs from its front into a fixed number of slots found by a circular scan,
and frees a slot when its job completes.

- `jobs.dfy` (module `Jobs`): the `Job` record and the pending queue's
  ordering. The library sort that `enqueue` calls after each push is
  modelled as an insertion sort, `SortByPriority`. Lemmas prove that its
  result is a permutation of its input, is in non-increasing priority order
  and keeps ids distinct. `PushPlacement` says where a pushed job lands,
  which fixes the order among equal priorities.
- `slots.dfy` (module `Slots`): the slot buffer as a sequence of cells, where
  0 means free. It holds the specification of the circular scan
  (`FreeSlot`), `Array.prototype.indexOf` (`IndexOf`), the rank marker both
  as the source writes it (`RankMarker`) and as the model writes it
  (`SlotMarker`, see Findings), and the bookkeeping `Tracks`. `Tracks`
  relates occupied cells, the ids of the jobs running in them and the
  active set.
- `runner.dfy` (module `Runner`): the class `CircularJobRunner`, whose fields
  are those of the source except the timing field `start`: `bufferSize`, `priorities`, `buffer` (an
  `array<int>`), `queue` (a `seq<Job>`), `activeJobs` (a `set<string>`) and
  `nextSlot`. A ghost map `inFlight` records which job id owns each occupied
  slot; this is the pair that the `onJobDone` closure captures. `Valid()` is
  the runner's invariant:
  - the cursor stays inside the buffer;
  - every cell fits a `Uint16Array`;
  - the queue holds at most `bufferSize` jobs, sorted, with distinct ids, none
    of them active;
  - occupied cells match active ids one to one.

  Every method that changes the queue, the active set or the buffer keeps
  `Valid()`.

The `setTimeout` hand-off in `run` is split into two calls. `DispatchOne` is
`runNextJob` up to the hand-off. `Complete` is `onJobDone` without its
trailing call. These two calls can be made in any interleaving, each `Complete` naming a slot and job id pair that `DispatchOne` handed out.
`RunNextJob` is one link of the source's chain: dispatch, then completion.
`Run` repeats that link until the queue is empty or no slot is free, as the
source's recursion does. In the source only one job is in flight per `run`
call.

Three points of the code's behaviour worth stating:
- When no slot is free, the code puts the job back at the front of the queue
  and the chain simply ends; it does not retry. `Run` stops there too.
- The slot is marked by the dispatcher (`runNextJob`), not by the allocator
  (`getNextSlot`), which only reads the buffer.
- Among jobs of equal priority the queue keeps arrival order: the sort is
  stable, as `Array.prototype.sort` is, so a pushed job lands behind every
  queued job whose priority is at least its own (`PushPlacement`). `Enqueue`'s
  contract fixes this order, and `Run` dispatches in it. No other lemma
  relies on it.

## Model

| member | source | states |
|---|---|---|
| `Jobs.HasId` | src/index.ts:40 | the `queue.some(j => j.id === job.id)` test: some queued job carries the id |
| `Jobs.SortKeepsHasId` | src/index.ts:40-52 | an id is queued after the re-sort exactly when it was queued before, so the duplicate test does not depend on the order |
| `Jobs.SortByPriority` | src/index.ts:52 | the re-sorted queue has as many jobs as before (that it is a sorted permutation is stated by the next two rows) |
| `Jobs.PushPlacement` | src/index.ts:51-52 | pushing a job onto a sorted queue and re-sorting inserts it behind exactly the leading jobs whose priority is at least its own, keeping the others' order: equal priorities stay in arrival order |
| `Jobs.SortPermutes` | src/index.ts:51-52 | the re-sorted queue holds exactly the jobs it had after the push, each as often (a permutation) |
| `Jobs.SortSorted` | src/index.ts:52 | the re-sorted queue is in non-increasing priority order, as the comparator `b.priority - a.priority` asks |
| `Jobs.SortDistinct` | src/index.ts:40-52 | re-sorting keeps queue ids pairwise distinct |
| `Jobs.PushSortKeepsPending` | src/index.ts:34-53 | admitting a job whose id is neither active nor queued into a queue with room keeps the queue bounded by the capacity, sorted, with distinct ids, and disjoint from the active ids |
| `Jobs.PopFrontKeepsPending` | src/index.ts:57-76 | the front job's id is not active, and once it becomes active the rest of the queue still meets the pending invariant |
| `Slots.StepForward` | src/index.ts:99-101 | advancing the cursor by `(nextSlot + 1) % bufferSize` visits the next cell of the circular walk, and comes back to the start index only after a full revolution |
| `Slots.FirstFreeFrom` | src/index.ts:98-105 | the scan loop stops at the first free cell met walking forward from the cursor; every cell passed over is occupied |
| `Slots.FreeSlot` | src/index.ts:95-110 | the slot handed out is -1 exactly when every cell is occupied; otherwise it is a free cell, and every cell closer to the cursor going forward is occupied |
| `Slots.IndexOf` | src/index.ts:77 | `indexOf` returns -1 exactly when the value is absent, else the position of its first occurrence |
| `Slots.RankMarker` | src/index.ts:77 | the marker as written, `indexOf(priority) + 1`, lies between 0 and the number of listed priorities |
| `Slots.RankMarkerOfUnlistedPriority` | src/index.ts:77 | the marker as written is 0, the "free" value, exactly when the priority is missing from `priorities`; otherwise it is the 1-based position of the priority's first occurrence |
| `Slots.UnrankedJobLeavesSlotFree` | src/index.ts:77 | with the marker as written, writing it for an unlisted priority into any free cell leaves the buffer unchanged; the next scan from any cursor finds the same free slot as before, and when that cell was the only free one it hands out that cell again |
| `Slots.SlotMarker` | src/index.ts:77 | the marker the model writes is never 0 and at most `|priorities| + 1`, which the constructor's bound keeps within a 16-bit cell; for a listed priority it equals the source's marker, the position of its first occurrence plus one |
| `Slots.ActiveCountIsOccupied` | src/index.ts:76-81 | under the bookkeeping, the number of active ids equals the number of occupied cells, which is at most the capacity |
| `Slots.OccupyKeepsTracks` | src/index.ts:76-77 | writing a nonzero marker into a free cell and activating a new id keeps occupied cells and active ids in one-to-one match |
| `Slots.ReleaseKeepsTracks` | src/index.ts:80-81 | clearing an occupied cell and dropping exactly its job's id keeps that one-to-one match |
| `Runner.CircularJobRunner.constructor` | src/index.ts:25-32 | a new runner has `bufferSize` zeroed cells, an empty queue, no active ids and the cursor at 0 |
| `Runner.CircularJobRunner.Enqueue` | src/index.ts:34-53 | the job is dropped, with the queue unchanged, exactly when its id is active, or its id is queued, or the queue already holds `bufferSize` jobs, checked in that order; otherwise the queue becomes the sorted permutation of old queue plus the job; the active set never changes; the invariant is kept |
| `Runner.CircularJobRunner.GetNextSlot` | src/index.ts:95-110 | returns the first free cell circularly from the old cursor, or -1; on -1 the cursor is back at its start value, otherwise it is `(slot + 1) % bufferSize`; the buffer is not written |
| `Runner.CircularJobRunner.DispatchOne` | src/index.ts:56-77 | on an empty queue nothing changes; with every cell occupied the queue is restored exactly and nothing else changes; otherwise the queue loses only its head, that job's id (not active before) joins the active set, and only the acquired slot of the buffer changes, from 0 to the job's nonzero marker |
| `Runner.CircularJobRunner.Occupy` | src/index.ts:76-77 | the job's id joins the active set and only the given free slot changes, to the job's marker |
| `Runner.CircularJobRunner.Complete` | src/index.ts:79-81 | exactly the job's slot is cleared to 0 and exactly its id leaves the active set; the queue and cursor are untouched |
| `Runner.CircularJobRunner.RunNextJob` | src/index.ts:56-89 | one dispatch followed by the completion of the job it started leaves the buffer and the active set as they were; the queue loses its head exactly when that job was started; the started job ran in the slot the scan from the old cursor hands out, and the cursor then stands just past it; when no job starts the cursor is unchanged |
| `Runner.CircularJobRunner.Run` | src/index.ts:55-93 | with some slot free at the start, every pending job is started exactly once, in queue (priority) order, and the queue ends empty; with none free nothing starts and the queue is kept; the buffer and the active set end as they began; the cursor ends where one scan per started job, each over the unchanged buffer, leaves it, so with no free slot it is unchanged |
| `Runner.CursorAfter` | src/index.ts:95-110 | the cursor position after any number of scans, each moving it just past the slot it hands out (or leaving it when none is free), stays inside the buffer |
| `Runner.CircularJobRunner.CapacityRespected` | src/index.ts:45-81 | in every valid state there are exactly as many active jobs as occupied slots, at most `bufferSize`, and at most `bufferSize` pending jobs |
| `Runner.ThreeJobOrder` | src/index.ts:51-52 | pushing jobs of priority 5, 9 and 1 one after the other, re-sorting after each push, yields the order 9, 5, 1 |

`ThreeJobScenario` and `DuplicateEnqueueScenario` are client methods. The
first shows that enqueueing ids 1, 2, 3 with priorities 5, 9, 1 into a
capacity-3 runner and running it starts them in the order 2, 1, 3, leaving
nothing pending or active. The second shows that a second enqueue of a
queued id is dropped.

## Left out

- The `setTimeout` scheduling and the concurrency it implies: completion is an explicit call to `Complete` (or the second half of `RunNextJob`), not an asynchronous callback.
- The `console.log` output, the `start` field set from `performance.now()` and the timing read in `run`: these are I/O and clock effects. `Enqueue` returns the reason for every rejection; this result is an addition, since the source logs only the buffer-full rejection and drops the other two silently. `Run` returns the started jobs in place of the per-job log lines.
- Random job generation (`generatePriority`, `getJobs`), the module-level job datasets, the `checkRunner` driver and `src/mock.ts`: this is test-data scaffolding. `src/mock.ts` is not part of this model.
- `Uint16Array` wrap-around: the buffer is an `array<int>`. The constructor requires fewer than 65535 priorities, so every marker fits a 16-bit cell and truncation never happens. The source's marker is at most the number of priorities, so it wraps only with 65536 or more priorities (the marker 65536 becomes 0, with the same effect as the Finding below). The model's bound is one stricter because `SlotMarker` can reach `|priorities| + 1`.
- `Runner.CircularJobRunner.GetNextSlot`: it requires `bufferSize` to be at least 1. With `bufferSize` 0 the source's scan never ends: `(nextSlot + 1) % 0` is `NaN`, which never equals the start index, and the cell at `NaN` reads as `undefined`, which is not 0. The source never reaches this, because `enqueue` rejects every job when the capacity is 0 and the dispatcher then finds the queue empty; `DispatchOne` calls the scan only with a nonempty queue, so the model never reaches it either.
- Numbers: `bufferSize` is a `nat`. The model leaves out the negative or fractional sizes a `Uint16Array` would reject or truncate. Priorities are integers, so floating-point priorities and `NaN` are not modelled.
- `Runner.CircularJobRunner.Complete`: it requires that the slot and id form a pair the runner handed out. `inFlight` records those pairs. This is always true of the `onJobDone` closure, which captures them, so a mismatched call is not modelled.
- `Runner.CircularJobRunner.Occupy` (and so `DispatchOne`): it writes `SlotMarker`, not the source's `indexOf(priority) + 1`. The two agree for every listed priority; for an unlisted one the model writes `|priorities| + 1` where the source writes 0 (see Findings).
- `Runner.CircularJobRunner.Enqueue`: it states that the new queue is the insertion-sort result of the pushed queue. That sort is stable, like `Array.prototype.sort`, and `PushPlacement` states the resulting placement. The other properties proved about the queue hold for any placement of equal priorities.

## Findings

| source | as written | input that shows it | evidently intended | confidence | as-written member | corrected member |
|---|---|---|---|---|---|---|
| src/index.ts:77 | the slot marker is `indexOf(priority) + 1`, which is 0 (the "free" value) when the job's priority is not in `priorities` | `bufferSize` 1, `priorities` empty; enqueue A (priority 7), call `run`, enqueue B, call `run` again before A's timer fires: A's slot 0 still holds 0, so B is also given slot 0 while A holds it | an occupied slot always holds a nonzero marker, so active jobs never outnumber occupied slots | medium; not executed | `Slots.UnrankedJobLeavesSlotFree` | `Slots.SlotMarker` |
