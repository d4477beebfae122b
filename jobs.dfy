/** Jobs and the pending queue's ordering: the `Job` record and the re-sort
    that `enqueue` applies to the queue after every push. */
module Jobs {

  /** A unit of schedulable work: identity, display label and priority. */
  datatype Job = Job(id: string, name: string, priority: int)

  /** Non-increasing priority from front to back (the order the comparator
      `b.priority - a.priority` asks for). */
  ghost predicate SortedByPriority(q: seq<Job>) {
    forall i, j :: 0 <= i < j < |q| ==> q[i].priority >= q[j].priority
  }

  /** No two queued jobs share an id. */
  ghost predicate DistinctIds(q: seq<Job>) {
    forall i, j :: 0 <= i < j < |q| ==> q[i].id != q[j].id
  }

  /** Some queued job carries `id` (the `queue.some(...)` test of enqueue). */
  predicate HasId(q: seq<Job>, id: string) {
    exists i :: 0 <= i < |q| && q[i].id == id
  }

  /** Places `x` in front of the first job whose priority it reaches. */
  function Insert(x: Job, q: seq<Job>): (r: seq<Job>)
    ensures |r| == |q| + 1
  {
    if q == [] || q[0].priority <= x.priority then [x] + q
    else [q[0]] + Insert(x, q[1..])
  }

  /** The queue after `sort((a, b) => b.priority - a.priority)`: an insertion
      sort, standing for the library sort. */
  function SortByPriority(q: seq<Job>): (r: seq<Job>)
    ensures |r| == |q|
  {
    if q == [] then [] else Insert(q[0], SortByPriority(q[1..]))
  }

  /** Inserting adds exactly `x` and loses nothing. */
  lemma {:induction false} InsertPermutes(x: Job, q: seq<Job>)
    ensures multiset(Insert(x, q)) == multiset(q) + multiset{x}
  {
    if q != [] && q[0].priority > x.priority {
      InsertPermutes(x, q[1..]);
      assert q == [q[0]] + q[1..];
    }
  }

  /** Every job of `Insert(x, q)` is `x` or a job of `q`. */
  lemma InsertMembers(x: Job, q: seq<Job>)
    ensures forall k :: 0 <= k < |Insert(x, q)| ==> Insert(x, q)[k] == x || Insert(x, q)[k] in q
  {
    var r := Insert(x, q);
    InsertPermutes(x, q);
    forall k | 0 <= k < |r| ensures r[k] == x || r[k] in q {
      assert r[k] in multiset(r);
    }
  }

  /** Inserting into a sorted queue keeps it sorted. */
  lemma {:induction false} InsertSorted(x: Job, q: seq<Job>)
    requires SortedByPriority(q)
    ensures SortedByPriority(Insert(x, q))
  {
    if q != [] && q[0].priority > x.priority {
      var rest := Insert(x, q[1..]);
      InsertSorted(x, q[1..]);
      InsertMembers(x, q[1..]);
      forall k | 0 <= k < |rest| ensures q[0].priority >= rest[k].priority {
        if rest[k] != x {
          var j :| 0 <= j < |q[1..]| && q[1..][j] == rest[k];
          assert q[j + 1] == rest[k];
        }
      }
    }
  }

  /** Inserting a job whose id is not queued keeps the ids distinct. */
  lemma {:induction false} InsertDistinct(x: Job, q: seq<Job>)
    requires DistinctIds(q) && !HasId(q, x.id)
    ensures DistinctIds(Insert(x, q))
  {
    if q != [] && q[0].priority > x.priority {
      var rest := Insert(x, q[1..]);
      assert !HasId(q[1..], x.id);
      InsertDistinct(x, q[1..]);
      InsertMembers(x, q[1..]);
      forall k | 0 <= k < |rest| ensures q[0].id != rest[k].id {
        if rest[k] != x {
          var j :| 0 <= j < |q[1..]| && q[1..][j] == rest[k];
          assert q[j + 1] == rest[k];
        } else {
          assert q[0].id != x.id;
        }
      }
    }
  }

  /** The sorted queue holds exactly the jobs it was given. */
  lemma {:induction false} SortPermutes(q: seq<Job>)
    ensures multiset(SortByPriority(q)) == multiset(q)
  {
    if q != [] {
      SortPermutes(q[1..]);
      InsertPermutes(q[0], SortByPriority(q[1..]));
      assert q == [q[0]] + q[1..];
    }
  }

  /** The sorted queue is in non-increasing priority order. */
  lemma {:induction false} SortSorted(q: seq<Job>)
    ensures SortedByPriority(SortByPriority(q))
  {
    if q != [] {
      SortSorted(q[1..]);
      InsertSorted(q[0], SortByPriority(q[1..]));
    }
  }

  /** Sorting keeps queue ids pairwise distinct. */
  lemma {:induction false} SortDistinct(q: seq<Job>)
    requires DistinctIds(q)
    ensures DistinctIds(SortByPriority(q))
  {
    if q != [] {
      var rest := SortByPriority(q[1..]);
      assert DistinctIds(q[1..]);
      SortDistinct(q[1..]);
      SortPermutes(q[1..]);
      forall k | 0 <= k < |rest| ensures rest[k].id != q[0].id {
        assert rest[k] in multiset(q[1..]);
        var j :| 0 <= j < |q[1..]| && q[1..][j] == rest[k];
        assert q[j + 1] == rest[k];
      }
      InsertDistinct(q[0], rest);
    }
  }

  /** Number of leading jobs of `q` whose priority is at least `p`. */
  function LeadingAtLeast(q: seq<Job>, p: int): (k: nat)
    ensures k <= |q|
  {
    if q == [] || q[0].priority < p then 0 else 1 + LeadingAtLeast(q[1..], p)
  }

  /** Where push-then-sort puts a new job: behind every queued job whose
      priority is at least its own, so among equal priorities jobs keep
      their arrival order, and in front of the rest; the queued jobs keep
      their relative order. */
  lemma {:induction false} PushPlacement(q: seq<Job>, x: Job)
    requires SortedByPriority(q)
    ensures var k := LeadingAtLeast(q, x.priority);
            SortByPriority(q + [x]) == q[..k] + [x] + q[k..]
  {
    if q == [] {
      assert [] + [x] == [x];
    } else {
      var rest := q[1..];
      var k' := LeadingAtLeast(rest, x.priority);
      assert SortedByPriority(rest);
      PushPlacement(rest, x);
      assert SortByPriority(q + [x]) == Insert(q[0], rest[..k'] + [x] + rest[k'..]) by {
        assert (q + [x])[0] == q[0] && (q + [x])[1..] == rest + [x];
      }
      assert |q| > 1 ==> q[1].priority <= q[0].priority;
      if k' > 0 {
        InsertAtFront(q, x, k');
      } else {
        assert rest[..k'] + [x] + rest[k'..] == [x] + rest;
        if x.priority <= q[0].priority {
          ConsSplit(q, x, 0);
        } else {
          InsertBehindX(q, x);
        }
      }
    }
  }

  /** Case of `PushPlacement` where the queue's second job already outranks
      the new one: the head stays in front. */
  lemma InsertAtFront(q: seq<Job>, x: Job, k': nat)
    requires |q| > 1 && q[1].priority <= q[0].priority && 0 < k' == LeadingAtLeast(q[1..], x.priority)
    ensures Insert(q[0], q[1..][..k'] + [x] + q[1..][k'..]) ==
            q[..LeadingAtLeast(q, x.priority)] + [x] + q[LeadingAtLeast(q, x.priority)..]
  {
    var rest := q[1..];
    var r := rest[..k'] + [x] + rest[k'..];
    assert r[0] == rest[0] == q[1];
    assert LeadingAtLeast(q, x.priority) == 1 + k';
    ConsSplit(q, x, k');
  }

  /** Putting the head back in front of a split tail gives the split of
      the whole queue one place further on. */
  lemma ConsSplit(q: seq<Job>, x: Job, k: nat)
    requires 0 < |q| && k < |q|
    ensures [q[0]] + (q[1..][..k] + [x] + q[1..][k..]) == q[..1 + k] + [x] + q[1 + k..]
  {
    assert q[..1 + k] == [q[0]] + q[1..][..k];
    assert q[1 + k..] == q[1..][k..];
  }

  /** Case of `PushPlacement` where the new job outranks the head: it goes
      in front of the whole queue. */
  lemma InsertBehindX(q: seq<Job>, x: Job)
    requires q != [] && x.priority > q[0].priority && (|q| > 1 ==> q[1].priority <= q[0].priority)
    ensures Insert(q[0], [x] + q[1..]) == [x] + q
  {
    var rest := q[1..];
    assert ([x] + rest)[0] == x && ([x] + rest)[1..] == rest;
    assert Insert(q[0], [x] + rest) == [x] + Insert(q[0], rest);
    assert Insert(q[0], rest) == [q[0]] + rest;
    assert [q[0]] + rest == q;
  }

  /** The duplicate test of enqueue does not depend on the queue's order:
      an id is queued after the re-sort exactly when it was queued before. */
  lemma SortKeepsHasId(q: seq<Job>, id: string)
    ensures HasId(SortByPriority(q), id) <==> HasId(q, id)
  {
    var r := SortByPriority(q);
    SortPermutes(q);
    if HasId(q, id) {
      var i :| 0 <= i < |q| && q[i].id == id;
      assert q[i] in multiset(r);
    }
    if HasId(r, id) {
      var i :| 0 <= i < |r| && r[i].id == id;
      assert r[i] in multiset(q);
    }
  }

  /** The pending queue's invariant: at most `cap` jobs, sorted by priority,
      distinct ids, and no id that is also active. */
  ghost predicate PendingOk(q: seq<Job>, active: set<string>, cap: nat) {
    |q| <= cap &&
    SortedByPriority(q) &&
    DistinctIds(q) &&
    forall i :: 0 <= i < |q| ==> q[i].id !in active
  }

  /** Admission keeps the pending invariant: pushing a job whose id is
      neither active nor queued into a queue with room, then re-sorting,
      gives a queue that again satisfies it. */
  lemma PushSortKeepsPending(q: seq<Job>, active: set<string>, cap: nat, job: Job)
    requires PendingOk(q, active, cap)
    requires job.id !in active && !HasId(q, job.id) && |q| < cap
    ensures PendingOk(SortByPriority(q + [job]), active, cap)
  {
    var pushed := q + [job];
    var r := SortByPriority(pushed);
    assert DistinctIds(pushed);
    SortPermutes(pushed);
    SortSorted(pushed);
    SortDistinct(pushed);
    assert |r| == |multiset(r)| == |pushed|;
    forall i | 0 <= i < |r| ensures r[i].id !in active {
      assert r[i] in multiset(pushed);
    }
  }

  /** Taking the front job keeps the pending invariant once that job's id
      becomes active, and the id was not active before. */
  lemma PopFrontKeepsPending(q: seq<Job>, active: set<string>, cap: nat)
    requires PendingOk(q, active, cap) && q != []
    ensures q[0].id !in active
    ensures PendingOk(q[1..], active + {q[0].id}, cap)
  {
    forall i | 0 <= i < |q[1..]| ensures q[1..][i].id != q[0].id {
      assert q[1..][i] == q[i + 1];
    }
  }
}
