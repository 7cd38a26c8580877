/**
 * The job table of `src/jobs.rs`: background jobs by id, the next id to hand
 * out and the foreground process id. A running process is an opaque handle;
 * whether it has exited is asked of a polling function passed in, in place
 * of `try_wait`.
 */
module Jobs {
  import opened Wrappers

  datatype JobStatus = Running | Stopped | Done

  /** The spawned process a job holds (the source's `std::process::Child`). */
  datatype Child = Child(handle: nat)

  datatype Job = Job(id: nat, pid: nat, command: string, status: JobStatus, process: Option<Child>)

  /** What `try_wait` reports: exited, still running, or an error. */
  datatype Poll = Exited | StillRunning | PollError

  /** `update_jobs` drops a job exactly when it holds a process and the poll says it exited. */
  predicate Finished(job: Job, poll: Child -> Poll) {
    job.process.Some? && poll(job.process.value) == Exited
  }

  /** The table `update_jobs` leaves: the jobs that have not finished. */
  function Surviving(jobs: map<nat, Job>, poll: Child -> Poll): (r: map<nat, Job>)
    ensures r.Keys <= jobs.Keys
    ensures forall id :: id in jobs ==> (id in r <==> !Finished(jobs[id], poll))
    ensures forall id :: id in r ==> r[id] == jobs[id]
  {
    map id | id in jobs && !Finished(jobs[id], poll) :: jobs[id]
  }

  /** `ids` listed in strictly increasing order. */
  predicate StrictlyIncreasing(ids: seq<nat>) {
    forall k, l :: 0 <= k < l < |ids| ==> ids[k] < ids[l]
  }

  predicate IsLeast(m: nat, s: set<nat>) {
    m in s && forall x :: x in s ==> m <= x
  }

  /** A non-empty finite set of naturals has a least element. */
  lemma {:induction false} HasLeast(s: set<nat>)
    requires s != {}
    ensures exists m :: IsLeast(m, s)
    decreases s
  {
    var x :| x in s;
    if s != {x} {
      HasLeast(s - {x});
      var m :| IsLeast(m, s - {x});
      var least := if x < m then x else m;
      forall y | y in s ensures least <= y {
        if y != x {
          assert y in s - {x};
        }
      }
      assert IsLeast(least, s);
    } else {
      forall y | y in s ensures x <= y {
        assert y in {x};
      }
      assert IsLeast(x, s);
    }
  }

  /** The least element of a non-empty set. */
  function Least(s: set<nat>): (m: nat)
    requires s != {}
    ensures m in s && forall x :: x in s ==> m <= x
  {
    HasLeast(s);
    var m :| IsLeast(m, s);
    m
  }

  /** Putting the least element in front of the others, in increasing order, orders the whole set. */
  lemma PrependLeast(m: nat, s: set<nat>, rest: seq<nat>)
    requires IsLeast(m, s)
    requires |rest| == |s - {m}|
    requires forall id :: id in rest <==> id in s - {m}
    requires StrictlyIncreasing(rest)
    ensures |[m] + rest| == |s|
    ensures forall id :: id in [m] + rest <==> id in s
    ensures StrictlyIncreasing([m] + rest)
  {
    assert |s - {m}| == |s| - 1;
    var r := [m] + rest;
    forall k, l | 0 <= k < l < |r| ensures r[k] < r[l] {
      assert r[l] == rest[l - 1] && r[l] in s - {m};
      if k > 0 {
        assert r[k] == rest[k - 1];
      }
    }
    forall id | id in s ensures id in r {
      if id != m {
        assert id in s - {m};
      }
    }
  }

  /** The elements of `s` in increasing order. */
  function Ascending(s: set<nat>): (ids: seq<nat>)
    ensures |ids| == |s|
    ensures forall id :: id in ids <==> id in s
    ensures StrictlyIncreasing(ids)
    decreases |s|
  {
    if s == {} then []
    else
      var m := Least(s);
      var rest := Ascending(s - {m});
      PrependLeast(m, s, rest);
      [m] + rest
  }

  /** The jobs of `table` in the order of `ids`. */
  function Listed(table: map<nat, Job>, ids: seq<nat>): (r: seq<Job>)
    requires forall k :: 0 <= k < |ids| ==> ids[k] in table
    ensures |r| == |ids|
  {
    seq(|ids|, k requires 0 <= k < |ids| => table[ids[k]])
  }

  /** Listing a table whose jobs sit under their own ids, by every id in increasing order, orders by id and drops nothing. */
  lemma ListedSorted(table: map<nat, Job>, ids: seq<nat>)
    requires forall id :: id in table ==> table[id].id == id
    requires forall id :: id in ids <==> id in table
    requires StrictlyIncreasing(ids)
    ensures forall k, l :: 0 <= k < l < |Listed(table, ids)| ==> Listed(table, ids)[k].id < Listed(table, ids)[l].id
    ensures forall j :: j in Listed(table, ids) <==> j in table.Values
  {
    var r := Listed(table, ids);
    forall j | j in table.Values ensures j in r {
      var id :| id in table && table[id] == j;
      var k :| 0 <= k < |ids| && ids[k] == id;
      assert r[k] == j;
    }
  }

  /** `table` without the entries listed in `ids`. */
  function Without(table: map<nat, Job>, ids: seq<nat>): (r: map<nat, Job>)
    ensures forall id :: id in r <==> id in table && id !in ids
  {
    map id | id in table && id !in ids :: table[id]
  }

  lemma WithoutOneMore(table: map<nat, Job>, ids: seq<nat>, x: nat)
    ensures Without(table, ids + [x]) == Without(table, ids) - {x}
  {
  }

  /** Removing exactly the finished ids leaves the surviving jobs. */
  lemma WithoutFinished(table: map<nat, Job>, ids: seq<nat>, poll: Child -> Poll)
    requires forall id :: id in ids <==> id in table && Finished(table[id], poll)
    ensures Without(table, ids) == Surviving(table, poll)
  {
  }

  class JobManager {
    var jobs: map<nat, Job>
    var nextId: nat
    var foregroundPid: Option<nat>

    /** Every job is stored under its own id, and every id in use is below `nextId`, which starts at 1. */
    predicate Valid()
      reads this
    {
      1 <= nextId &&
      forall id :: id in jobs ==> jobs[id].id == id && 1 <= id < nextId
    }

    /** `JobManager::new`: no jobs, ids start at 1, no foreground process. */
    constructor ()
      ensures Valid()
      ensures jobs == map[] && nextId == 1 && foregroundPid == None
    {
      jobs := map[];
      nextId := 1;
      foregroundPid := None;
    }

    /** `set_foreground_pid`. */
    method SetForegroundPid(pid: Option<nat>)
      requires Valid()
      modifies this
      ensures Valid()
      ensures foregroundPid == pid && jobs == old(jobs) && nextId == old(nextId)
    {
      foregroundPid := pid;
    }

    /** `get_foreground_pid`: the value last set. */
    function GetForegroundPid(): (pid: Option<nat>)
      reads this
      ensures pid == foregroundPid
    {
      foregroundPid
    }

    /**
     * `add_job`: the job gets the next id, is stored as Running with its process,
     * and the next id moves on by one; no other entry changes.
     */
    method AddJob(pid: nat, command: string, process: Child) returns (id: nat)
      requires Valid()
      modifies this
      ensures Valid()
      ensures id == old(nextId) && id !in old(jobs)
      ensures nextId == old(nextId) + 1
      ensures jobs == old(jobs)[id := Job(id, pid, command, Running, Some(process))]
      ensures foregroundPid == old(foregroundPid)
    {
      id := nextId;
      nextId := nextId + 1;
      var job := Job(id, pid, command, Running, Some(process));
      jobs := jobs[id := job];
    }

    /** `get_job`: the job stored under `id`, if any. */
    function GetJob(id: nat): (r: Option<Job>)
      reads this
      ensures r.Some? <==> id in jobs
      ensures r.Some? ==> r.value == jobs[id]
    {
      if id in jobs then Some(jobs[id]) else None
    }

    /** `remove_job`: takes out and returns the job stored under `id`; an absent id changes nothing. */
    method RemoveJob(id: nat) returns (r: Option<Job>)
      requires Valid()
      modifies this
      ensures Valid()
      ensures r == old(GetJob(id))
      ensures jobs == old(jobs) - {id}
      ensures nextId == old(nextId) && foregroundPid == old(foregroundPid)
    {
      if id in jobs {
        r := Some(jobs[id]);
        jobs := jobs - {id};
      } else {
        r := None;
      }
    }

    /** `list_jobs`: every stored job, once, sorted by id. */
    function ListJobs(): (r: seq<Job>)
      reads this
      requires Valid()
      ensures |r| == |jobs|
    {
      Listed(jobs, Ascending(jobs.Keys))
    }

    /** The listing holds exactly the stored jobs, in strictly increasing id order. */
    lemma ListJobsSorted()
      requires Valid()
      ensures forall k, l :: 0 <= k < l < |ListJobs()| ==> ListJobs()[k].id < ListJobs()[l].id
      ensures forall j :: j in ListJobs() <==> j in jobs.Values
    {
      ListedSorted(jobs, Ascending(jobs.Keys));
    }

    /**
     * `update_jobs`: polls every job that holds a process, collects the ids of
     * those that exited, then removes them. Running jobs, jobs whose poll failed
     * and jobs without a process stay; the next id is untouched.
     */
    method UpdateJobs(poll: Child -> Poll)
      requires Valid()
      modifies this
      ensures Valid()
      ensures jobs == Surviving(old(jobs), poll)
      ensures nextId == old(nextId) && foregroundPid == old(foregroundPid)
    {
      var completed: seq<nat> := [];
      var unvisited := jobs.Keys;
      while unvisited != {}
        invariant unvisited <= jobs.Keys
        invariant jobs == old(jobs) && nextId == old(nextId) && foregroundPid == old(foregroundPid)
        invariant forall id :: id in completed <==> id in jobs && id !in unvisited && Finished(jobs[id], poll)
        decreases |unvisited|
      {
        var id :| id in unvisited;
        var job := jobs[id];
        if job.process.Some? {
          match poll(job.process.value) {
            case Exited =>
              completed := completed + [id];
            case StillRunning =>
            case PollError =>
          }
        }
        unvisited := unvisited - {id};
      }
      ghost var before := jobs;
      var k := 0;
      while k < |completed|
        invariant k <= |completed|
        invariant nextId == old(nextId) && foregroundPid == old(foregroundPid)
        invariant jobs == Without(before, completed[..k])
      {
        WithoutOneMore(before, completed[..k], completed[k]);
        assert completed[..k + 1] == completed[..k] + [completed[k]];
        jobs := jobs - {completed[k]};
        k := k + 1;
      }
      assert completed[..k] == completed;
      WithoutFinished(before, completed, poll);
    }

    /** `_find_job_by_pid`: the id of some stored job with that pid (the map's order is unspecified), or none. */
    method FindJobByPid(pid: nat) returns (r: Option<nat>)
      requires Valid()
      ensures r.Some? ==> r.value in jobs && jobs[r.value].pid == pid && jobs[r.value].id == r.value
      ensures r.None? <==> forall id :: id in jobs ==> jobs[id].pid != pid
    {
      if exists id :: id in jobs && jobs[id].pid == pid {
        var id :| id in jobs && jobs[id].pid == pid;
        r := Some(jobs[id].id);
      } else {
        r := None;
      }
    }
  }
}
