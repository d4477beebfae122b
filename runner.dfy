/** The `CircularJobRunner`: a priority-ordered pending queue admitted into a
    fixed number of slots found by a circular scan. The asynchronous hand-off
    of a started job is split into two calls, `DispatchOne` (start the next
    job) and `Complete` (its completion), and `Run` alternates them the way
    the `run`/`runNextJob`/`onJobDone` chain does. */
module Runner {
  import opened Jobs
  import opened Slots

  /** Why `Enqueue` admitted or dropped a job. */
  datatype Admission = Admitted | AlreadyActive | AlreadyQueued | BufferFull

  /** What one step of `runNextJob` did. */
  datatype Dispatch = Drained | NoFreeSlot | Started(slot: nat, job: Job)

  class CircularJobRunner {
    const bufferSize: nat
    const priorities: seq<int>
    const buffer: array<int>
    var queue: seq<Job>
    var activeJobs: set<string>
    var nextSlot: nat
    /** Which job id each occupied slot belongs to: the pair that the
        `onJobDone` closure captures. */
    ghost var inFlight: map<nat, string>

    /** The runner's invariant: a cursor inside the buffer, cells that fit a
        `Uint16Array`, a bounded, sorted queue of distinct ids none of which
        is active, and occupied cells matching the active ids one to one. */
    ghost predicate Valid()
      reads this, buffer
    {
      buffer.Length == bufferSize &&
      (nextSlot < bufferSize || nextSlot == 0) &&
      |priorities| < MaxCell &&
      CellsFit(buffer[..]) &&
      PendingOk(queue, activeJobs, bufferSize) &&
      Tracks(buffer[..], inFlight, activeJobs)
    }

    /** A runner with `bufferSize` free slots and an empty queue. */
    constructor (bufferSize: nat, priorities: seq<int>)
      requires |priorities| < MaxCell
      ensures Valid() && fresh(buffer)
      ensures this.bufferSize == bufferSize && this.priorities == priorities
      ensures queue == [] && activeJobs == {} && nextSlot == 0
      ensures forall i :: 0 <= i < buffer.Length ==> buffer[i] == 0
    {
      this.bufferSize := bufferSize;
      this.priorities := priorities;
      buffer := new int[bufferSize](_ => 0);
      queue := [];
      activeJobs := {};
      nextSlot := 0;
      inFlight := map[];
    }

    /** Admits `job` unless its id is active, its id is queued, or the queue
        already holds `bufferSize` jobs (checked in that order); an admitted
        job is pushed and the queue re-sorted by priority. */
    method Enqueue(job: Job) returns (admission: Admission)
      requires Valid()
      modifies this`queue
      ensures Valid()
      ensures admission == AlreadyActive <==> job.id in activeJobs
      ensures admission == AlreadyQueued <==> job.id !in activeJobs && HasId(old(queue), job.id)
      ensures admission == BufferFull <==>
                job.id !in activeJobs && !HasId(old(queue), job.id) && |old(queue)| >= bufferSize
      ensures admission != Admitted ==> queue == old(queue)
      ensures admission == Admitted ==>
                queue == SortByPriority(old(queue) + [job]) &&
                SortedByPriority(queue) &&
                multiset(queue) == multiset(old(queue)) + multiset{job}
    {
      if job.id in activeJobs {
        return AlreadyActive;
      }
      if HasId(queue, job.id) {
        return AlreadyQueued;
      }
      if |queue| >= bufferSize {
        return BufferFull;
      }
      PushSortKeepsPending(queue, activeJobs, bufferSize, job);
      SortPermutes(queue + [job]);
      SortSorted(queue + [job]);
      queue := queue + [job];
      queue := SortByPriority(queue);
      admission := Admitted;
    }

    /** The circular scan of `getNextSlot`: from the cursor, walk forward
        (wrapping) to the first free cell, return it and leave the cursor
        just past it; after a full revolution without one, return -1 with
        the cursor back where it started. The buffer is only read. */
    method GetNextSlot() returns (slot: int)
      requires buffer.Length == bufferSize >= 1 && nextSlot < bufferSize
      modifies this`nextSlot
      ensures nextSlot < bufferSize
      ensures slot == FreeSlot(buffer[..], old(nextSlot))
      ensures slot == -1 ==> nextSlot == old(nextSlot)
      ensures slot != -1 ==> nextSlot == (slot + 1) % bufferSize
    {
      var startIndex := nextSlot;
      ghost var cells := buffer[..];
      ghost var steps: nat := 0;
      while buffer[nextSlot] != 0
        invariant steps < bufferSize
        invariant nextSlot == Circ(startIndex, steps, bufferSize)
        invariant FirstFreeFrom(cells, startIndex, steps) == FirstFreeFrom(cells, startIndex, 0)
        decreases bufferSize - steps
      {
        StepForward(startIndex, steps, bufferSize);
        nextSlot := (nextSlot + 1) % bufferSize;
        steps := steps + 1;
        if nextSlot == startIndex {
          return -1;
        }
      }
      slot := nextSlot;
      nextSlot := (nextSlot + 1) % bufferSize;
    }

    /** One call of `runNextJob` up to the hand-off: take the front job; on
        an empty queue stop; with no free slot put the job back in front;
        otherwise mark its id active and its slot occupied. */
    method DispatchOne() returns (outcome: Dispatch)
      requires Valid()
      modifies this`queue, this`activeJobs, this`nextSlot, this`inFlight, buffer
      ensures Valid()
      ensures outcome == Drained <==> old(queue) == []
      ensures outcome == NoFreeSlot <==>
                old(queue) != [] && AllOccupied(old(buffer[..]))
      ensures !outcome.Started? ==>
                queue == old(queue) && activeJobs == old(activeJobs) && nextSlot == old(nextSlot) &&
                inFlight == old(inFlight) && buffer[..] == old(buffer[..])
      ensures outcome.Started? ==>
                old(queue) != [] && outcome.job == old(queue)[0] && queue == old(queue)[1..] &&
                outcome.job.id !in old(activeJobs) &&
                activeJobs == old(activeJobs) + {outcome.job.id} &&
                outcome.slot < bufferSize && old(buffer[outcome.slot]) == 0 &&
                outcome.slot as int == FreeSlot(old(buffer[..]), old(nextSlot)) &&
                nextSlot == (outcome.slot + 1) % bufferSize &&
                buffer[..] == old(buffer[..])[outcome.slot := SlotMarker(priorities, outcome.job.priority)] &&
                inFlight == old(inFlight)[outcome.slot := outcome.job.id]
    {
      if queue == [] {
        return Drained;
      }
      PopFrontKeepsPending(queue, activeJobs, bufferSize);
      var job := queue[0];
      queue := queue[1..];
      var slot := GetNextSlot();
      if slot == -1 {
        queue := [job] + queue;
        assert queue == old(queue);
        return NoFreeSlot;
      }
      assert queue == old(queue)[1..];
      Occupy(slot, job);
      outcome := Started(slot, job);
    }

    /** The two writes of `runNextJob` once a slot is found: the job's id
        becomes active and its marker fills the (free) slot. */
    method Occupy(slot: nat, job: Job)
      requires Valid()
      requires slot < bufferSize && buffer[slot] == 0
      requires job.id !in activeJobs && PendingOk(queue, activeJobs + {job.id}, bufferSize)
      modifies this`activeJobs, this`inFlight, buffer
      ensures Valid()
      ensures activeJobs == old(activeJobs) + {job.id}
      ensures buffer[..] == old(buffer[..])[slot := SlotMarker(priorities, job.priority)]
      ensures inFlight == old(inFlight)[slot := job.id]
    {
      ghost var cells := buffer[..];
      var marker := SlotMarker(priorities, job.priority);
      OccupyKeepsTracks(cells, inFlight, activeJobs, slot, job.id, marker);
      activeJobs := activeJobs + {job.id};
      buffer[slot] := marker;
      inFlight := inFlight[slot := job.id];
      assert buffer[..] == cells[slot := marker];
    }

    /** `onJobDone`: the job running in `slot` has finished; free the slot
        and drop its id from the active set. */
    method Complete(slot: nat, id: string)
      requires Valid()
      requires slot in inFlight && inFlight[slot] == id
      modifies this`activeJobs, this`inFlight, buffer
      ensures Valid()
      ensures buffer[..] == old(buffer[..])[slot := 0]
      ensures activeJobs == old(activeJobs) - {id}
      ensures inFlight == old(inFlight) - {slot}
    {
      ReleaseKeepsTracks(buffer[..], inFlight, activeJobs, slot);
      assert PendingOk(queue, activeJobs - {id}, bufferSize);
      activeJobs := activeJobs - {id};
      buffer[slot] := 0;
      inFlight := inFlight - {slot};
    }

    /** One link of the `runNextJob` → `onJobDone` → `runNextJob` chain:
        dispatch the front job and, when it started, complete it before
        anything else happens. Such a step leaves the buffer, the active set
        and the slot bookkeeping as they were; only the queue (and the
        cursor) move. */
    method RunNextJob() returns (outcome: Dispatch)
      requires Valid()
      modifies this`queue, this`activeJobs, this`nextSlot, this`inFlight, buffer
      ensures Valid()
      ensures buffer[..] == old(buffer[..]) && activeJobs == old(activeJobs) && inFlight == old(inFlight)
      ensures outcome == Drained <==> old(queue) == []
      ensures outcome == NoFreeSlot <==> old(queue) != [] && AllOccupied(old(buffer[..]))
      ensures !outcome.Started? ==> queue == old(queue)
      ensures outcome.Started? ==>
                old(queue) != [] && outcome.job == old(queue)[0] && queue == old(queue)[1..]
      ensures outcome.Started? ==>
                outcome.slot as int == FreeSlot(old(buffer[..]), old(nextSlot)) &&
                nextSlot == (outcome.slot + 1) % bufferSize
      ensures !outcome.Started? ==> nextSlot == old(nextSlot)
    {
      ghost var cells := buffer[..];
      ghost var flight := inFlight;
      ghost var active := activeJobs;
      outcome := DispatchOne();
      if outcome.Started? {
        var slot, job := outcome.slot, outcome.job;
        assert cells[slot] == 0 && slot !in flight;
        ghost var marked := buffer[..];
        Complete(slot, job.id);
        assert buffer[..] == marked[slot := 0] == cells;
        assert inFlight == flight[slot := job.id] - {slot} == flight;
        assert activeJobs == active + {job.id} - {job.id} == active;
      }
    }

    /** `run`: follow the chain of `RunNextJob` steps until the queue is
        empty or no slot is free. Returns the jobs in the order they were
        started. When some slot is free at the start, every pending job is
        started exactly once, in queue (priority) order, and the queue ends
        empty; when none is, nothing starts and the queue is kept. Either
        way the buffer and the active set end as they began, and the cursor
        ends where one scan per started job leaves it. */
    method Run() returns (started: seq<Job>)
      requires Valid()
      modifies this`queue, this`activeJobs, this`nextSlot, this`inFlight, buffer
      ensures Valid()
      ensures buffer[..] == old(buffer[..]) && activeJobs == old(activeJobs) && inFlight == old(inFlight)
      ensures !AllOccupied(old(buffer[..])) ==> started == old(queue) && queue == []
      ensures AllOccupied(old(buffer[..])) ==> started == [] && queue == old(queue)
      ensures AllOccupied(old(buffer[..])) ==> nextSlot == old(nextSlot)
      ensures bufferSize > 0 ==> nextSlot == CursorAfter(old(buffer[..]), old(nextSlot), |started|)
    {
      ghost var cells := buffer[..];
      ghost var full := AllOccupied(cells);
      ghost var start := nextSlot;
      started := [];
      var done := false;
      while !done
        invariant Valid()
        invariant buffer[..] == cells && activeJobs == old(activeJobs) && inFlight == old(inFlight)
        invariant old(queue) == started + queue
        invariant done && !full ==> queue == []
        invariant full ==> started == []
        invariant CursorAt(nextSlot, cells, start, |started|)
        decreases |queue| + (if done then 0 else 1)
      {
        ghost var pending := queue;
        ghost var cursor := nextSlot;
        ghost var k := |started|;
        var outcome := RunNextJob();
        if outcome.Started? {
          assert !full;
          assert pending == [outcome.job] + queue;
          assert started + pending == (started + [outcome.job]) + queue;
          CursorStep(cells, start, k, cursor, outcome.slot, nextSlot);
          assert CursorAt(nextSlot, cells, start, k + 1);
          started := started + [outcome.job];
          assert |started| == k + 1;
        } else {
          done := true;
        }
      }
    }

    /** Under the invariant, at most `bufferSize` jobs are active, one per
        occupied slot, and at most `bufferSize` are pending. */
    lemma CapacityRespected()
      requires Valid()
      ensures |activeJobs| == |OccupiedCells(buffer[..])| <= bufferSize
      ensures |queue| <= bufferSize
    {
      ActiveCountIsOccupied(buffer[..], inFlight, activeJobs);
    }
  }

  /** Where the cursor stands after `k` jobs have been started from a buffer
      that reads `cells` each time the scan runs, the first scan starting at
      `c`: each scan moves it past the slot it hands out, and a scan that
      finds no free slot leaves it where it was. */
  ghost function CursorAfter(cells: seq<int>, c: nat, k: nat): (r: nat)
    requires c < |cells|
    ensures r < |cells|
  {
    if k == 0 then c
    else
      var p := CursorAfter(cells, c, k - 1);
      var slot := FreeSlot(cells, p);
      if slot == -1 then p else (slot + 1) % |cells|
  }

  /** The cursor stands where `k` scans from `start` over `cells` leave it
      (vacuous for an empty buffer). */
  ghost predicate CursorAt(cursor: nat, cells: seq<int>, start: nat, k: nat) {
    start < |cells| ==> cursor == CursorAfter(cells, start, k)
  }

  /** One more started job moves the cursor past the slot the scan handed out. */
  lemma CursorStep(cells: seq<int>, c: nat, k: nat, before: nat, slot: nat, after: nat)
    requires c < |cells| && before == CursorAfter(cells, c, k)
    requires slot as int == FreeSlot(cells, before) && after == (slot + 1) % |cells|
    ensures after == CursorAfter(cells, c, k + 1)
  {
  }

  /** Re-sorting after each push of jobs with priorities 5, 9 and 1, in
      that order, yields the order 9, 5, 1. */
  lemma ThreeJobOrder(j1: Job, j2: Job, j3: Job)
    requires j1.priority == 5 && j2.priority == 9 && j3.priority == 1
    ensures SortByPriority([j1] + [j2]) == [j2, j1]
    ensures SortByPriority([j2, j1] + [j3]) == [j2, j1, j3]
  {
    assert [j1] + [j2] == [j1, j2] && [j1, j2][1..] == [j2] && [j2][1..] == [];
    assert SortByPriority([j2]) == [j2];
    assert Insert(j1, []) == [j1];
    assert Insert(j1, [j2]) == [j2] + Insert(j1, []);
    assert [j2, j1] + [j3] == [j2, j1, j3] && [j2, j1, j3][1..] == [j1, j3];
    assert [j1, j3][1..] == [j3] && [j3][1..] == [];
    assert SortByPriority([j3]) == [j3];
    assert SortByPriority([j1, j3]) == Insert(j1, [j3]) == [j1, j3];
    assert SortByPriority([j2, j1, j3]) == Insert(j2, [j1, j3]) == [j2, j1, j3];
  }

  /** Capacity 3, jobs (id 1, priority 5), (id 2, priority 9), (id 3,
      priority 1) enqueued in that order start in the order 2, 1, 3, and
      leave nothing pending or active. */
  method ThreeJobScenario()
  {
    var j1 := Job("1", "Job id: 1", 5);
    var j2 := Job("2", "Job id: 2", 9);
    var j3 := Job("3", "Job id: 3", 1);
    var runner := new CircularJobRunner(3, [5, 9, 1]);
    EnqueueThree(runner, j1, j2, j3);
    assert !AllOccupied(runner.buffer[..]) by {
      assert runner.buffer[..][0] == runner.buffer[0] == 0;
    }
    var started := runner.Run();
    assert started == [j2, j1, j3];
    assert runner.queue == [] && runner.activeJobs == {};
  }

  /** The enqueue half of the scenario above: all three jobs are admitted
      and the queue holds them in priority order. */
  method EnqueueThree(runner: CircularJobRunner, j1: Job, j2: Job, j3: Job)
    requires runner.Valid() && runner.bufferSize == 3 && runner.queue == [] && runner.activeJobs == {}
    requires j1 == Job("1", "Job id: 1", 5) && j2 == Job("2", "Job id: 2", 9) && j3 == Job("3", "Job id: 3", 1)
    modifies runner
    ensures runner.Valid() && runner.queue == [j2, j1, j3] && runner.activeJobs == {}
  {
    ThreeJobOrder(j1, j2, j3);
    var a := runner.Enqueue(j1);
    assert a == Admitted && runner.queue == [j1] by {
      assert [] + [j1] == [j1];
    }
    assert !HasId([j1], j2.id);
    a := runner.Enqueue(j2);
    assert a == Admitted && runner.queue == [j2, j1];
    assert !HasId([j2, j1], j3.id);
    a := runner.Enqueue(j3);
    assert a == Admitted && runner.queue == [j2, j1, j3];
  }

  /** Enqueueing the same id twice: the second call is dropped and the queue
      keeps one job. */
  method DuplicateEnqueueScenario()
  {
    var j1 := Job("1", "Job id: 1", 5);
    var runner := new CircularJobRunner(3, [5]);
    var a := runner.Enqueue(j1);
    assert a == Admitted && runner.queue == [j1];
    a := runner.Enqueue(j1);
    assert a == AlreadyQueued && |runner.queue| == 1;
  }
}
