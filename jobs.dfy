/**
  The data model of the job table of yash.c: processes, jobs, the status
  events `waitpid` reports, and the read-only queries over them (`job_is_done`,
  `job_is_stopped`, `job_find`, `process_find`). Also the specification of the
  reap step of `job_notify`: which jobs survive and what becomes of them.

  Job numbers: a tracked job's number is at least 1, and numbers strictly
  increase along the list (`Numbered`); `LastNum` is the number of the last
  job, or 0 for an empty table, which is what `job_num` holds.
 */
module Jobs {
  import opened Wrappers

  /** Signal number of SIGTSTP (Linux numbering). */
  const SIGTSTP: int := 20

  datatype Status = Running | Stopped | Done

  /** An I/O endpoint of a process: inherited from the shell, or the file a redirection names. */
  datatype Fd = Inherited | Opened(path: string)

  datatype Process = Process(pid: int, argv: seq<string>, fileIn: Fd, fileOut: Fd, fileErr: Fd, status: Status)

  datatype Job = Job(pgid: int, cmdline: string, notified: bool, num: int, background: bool, procs: seq<Process>)

  /** What `waitpid` reports about a child: exited, killed by a signal, or stopped by a signal. */
  datatype WaitStatus = Exited(code: int) | Signaled(signal: int) | StoppedBy(signal: int)

  /** One report of `waitpid`; a pid of 0 or less is its "nothing (more) to report". */
  datatype Event = Event(pid: int, status: WaitStatus)

  /**
    What `job_fg` points at: nothing, the job just launched in the foreground
    (not in the table), or the tracked job with the given number.
   */
  datatype Foreground = NoJob | Launched(job: Job) | Tracked(num: int)

  // ---------------------------------------------------------------------
  // job_is_done and job_is_stopped

  /** The loop of `job_is_done`: every process is DONE. */
  function AllDone(ps: seq<Process>): bool
    decreases |ps|
  {
    ps == [] || (ps[0].status == Done && AllDone(ps[1..]))
  }

  /** The loop of `job_is_stopped`: no process is RUNNING. */
  function NoneRunning(ps: seq<Process>): bool
    decreases |ps|
  {
    ps == [] || (ps[0].status != Running && NoneRunning(ps[1..]))
  }

  lemma {:induction false} AllDoneMeans(ps: seq<Process>)
    ensures AllDone(ps) <==> forall i :: 0 <= i < |ps| ==> ps[i].status == Done
    decreases |ps|
  {
    if ps != [] {
      AllDoneMeans(ps[1..]);
      assert forall i :: 1 <= i < |ps| ==> ps[1..][i - 1] == ps[i];
    }
  }

  lemma {:induction false} NoneRunningMeans(ps: seq<Process>)
    ensures NoneRunning(ps) <==> forall i :: 0 <= i < |ps| ==> ps[i].status != Running
    decreases |ps|
  {
    if ps != [] {
      NoneRunningMeans(ps[1..]);
      assert forall i :: 1 <= i < |ps| ==> ps[1..][i - 1] == ps[i];
    }
  }

  /** `job_is_done`: every process of the job is DONE. */
  function JobIsDone(j: Job): (r: bool)
    ensures r <==> forall i :: 0 <= i < |j.procs| ==> j.procs[i].status == Done
  {
    AllDoneMeans(j.procs);
    AllDone(j.procs)
  }

  /** `job_is_stopped`: no process of the job is RUNNING (so a done job counts as stopped). */
  function JobIsStopped(j: Job): (r: bool)
    ensures r <==> forall i :: 0 <= i < |j.procs| ==> j.procs[i].status != Running
  {
    NoneRunningMeans(j.procs);
    NoneRunning(j.procs)
  }

  lemma DoneJobIsStopped(j: Job)
    ensures JobIsDone(j) ==> JobIsStopped(j)
    ensures JobIsStopped(j) && !JobIsDone(j) ==> exists i :: 0 <= i < |j.procs| && j.procs[i].status == Stopped
  {
  }

  // ---------------------------------------------------------------------
  // process_find and job_find

  function FindPid(ps: seq<Process>, pid: int, from: nat): (r: Option<nat>)
    requires from <= |ps|
    ensures r.Some? ==> from <= r.value < |ps| && ps[r.value].pid == pid
    ensures r.Some? ==> forall i :: from <= i < r.value ==> ps[i].pid != pid
    ensures r.None? ==> forall i :: from <= i < |ps| ==> ps[i].pid != pid
    decreases |ps| - from
  {
    if from == |ps| then None
    else if ps[from].pid == pid then Some(from)
    else FindPid(ps, pid, from + 1)
  }

  /** `process_find`: the position of the first process of `j` with this pid, if any. */
  function ProcessFind(j: Job, pid: int): (r: Option<nat>)
    ensures r.Some? ==> r.value < |j.procs| && j.procs[r.value].pid == pid
    ensures r.Some? ==> forall i :: 0 <= i < r.value ==> j.procs[i].pid != pid
    ensures r.None? ==> forall i :: 0 <= i < |j.procs| ==> j.procs[i].pid != pid
  {
    FindPid(j.procs, pid, 0)
  }

  function FindJob(js: seq<Job>, pid: int, from: nat): (r: Option<nat>)
    requires from <= |js|
    ensures r.Some? ==> from <= r.value < |js| && ProcessFind(js[r.value], pid).Some?
    ensures r.Some? ==> forall k :: from <= k < r.value ==> ProcessFind(js[k], pid).None?
    ensures r.None? ==> forall k :: from <= k < |js| ==> ProcessFind(js[k], pid).None?
    decreases |js| - from
  {
    if from == |js| then None
    else if ProcessFind(js[from], pid).Some? then Some(from)
    else FindJob(js, pid, from + 1)
  }

  /** `job_find`: the position of the first tracked job owning a process with this pid, if any. */
  function JobFind(js: seq<Job>, pid: int): (r: Option<nat>)
    ensures r.Some? ==> r.value < |js| && ProcessFind(js[r.value], pid).Some?
    ensures r.Some? ==> forall k :: 0 <= k < r.value ==> ProcessFind(js[k], pid).None?
    ensures r.None? <==> forall k :: 0 <= k < |js| ==> ProcessFind(js[k], pid).None?
  {
    FindJob(js, pid, 0)
  }

  /** The position of the tracked job with number `n`, if any (the search loops of `do_fg`, `do_bg`). */
  function FindNum(js: seq<Job>, n: int, from: nat): (r: Option<nat>)
    requires from <= |js|
    ensures r.Some? ==> from <= r.value < |js| && js[r.value].num == n
    ensures r.Some? ==> forall k :: from <= k < r.value ==> js[k].num != n
    ensures r.None? ==> forall k :: from <= k < |js| ==> js[k].num != n
    decreases |js| - from
  {
    if from == |js| then None
    else if js[from].num == n then Some(from)
    else FindNum(js, n, from + 1)
  }

  // ---------------------------------------------------------------------
  // Job numbers

  /** `job_num`: the number of the last job of the list, 0 when it is empty. */
  function LastNum(js: seq<Job>): int
  {
    if js == [] then 0 else js[|js| - 1].num
  }

  /** Job numbers are positive and strictly increase along the list. */
  predicate Numbered(js: seq<Job>)
  {
    && (forall k :: 0 <= k < |js| ==> js[k].num >= 1)
    && (forall i, k :: 0 <= i < k < |js| ==> js[i].num < js[k].num)
  }

  /** Some tracked job has number `n`. */
  predicate Tracks(js: seq<Job>, n: int)
  {
    exists k :: 0 <= k < |js| && js[k].num == n
  }

  /** `b` holds jobs with the numbers of `a`, in the same places; their processes may differ. */
  predicate SameNums(a: seq<Job>, b: seq<Job>)
  {
    |a| == |b| && forall i :: 0 <= i < |a| ==> a[i].num == b[i].num
  }

  /** `job_add` numbers the appended job one past `job_num`, which keeps the numbering. */
  lemma AppendKeepsNumbering(js: seq<Job>, j: Job)
    requires Numbered(js)
    ensures Numbered(js + [j.(num := LastNum(js) + 1)])
    ensures LastNum(js + [j.(num := LastNum(js) + 1)]) == LastNum(js) + 1
  {
    var js' := js + [j.(num := LastNum(js) + 1)];
    forall i, k | 0 <= i < k < |js'|
      ensures js'[i].num < js'[k].num
    {
      if k == |js| && i < |js| - 1 {
        assert js[i].num < js[|js| - 1].num;
      }
    }
  }

  /** In a numbered table the job with a given number is unique. */
  lemma NumbersIdentifyJobs(js: seq<Job>, i: nat, k: nat)
    requires Numbered(js) && i < |js| && k < |js|
    ensures js[i].num == js[k].num <==> i == k
  {
  }

  // ---------------------------------------------------------------------
  // mark_job_as_running and mark_process_status, on one process

  /** A STOPPED process becomes RUNNING; RUNNING and DONE processes stay as they are. */
  function Resume(p: Process): Process
  {
    if p.status == Stopped then p.(status := Running) else p
  }

  /** The job after `mark_job_as_running`. */
  function Resumed(j: Job): Job
  {
    j.(procs := seq(|j.procs|, i requires 0 <= i < |j.procs| => Resume(j.procs[i])), notified := false)
  }

  /**
    Resuming leaves a done job done and a job that is not done not done; no
    process is left STOPPED, so a job with a stopped process is running again.
   */
  lemma ResumedJob(j: Job)
    ensures |Resumed(j).procs| == |j.procs| && !Resumed(j).notified
    ensures forall i :: 0 <= i < |j.procs| ==> Resumed(j).procs[i].status != Stopped
    ensures JobIsDone(Resumed(j)) == JobIsDone(j)
    ensures (exists i :: 0 <= i < |j.procs| && j.procs[i].status == Stopped) ==> !JobIsStopped(Resumed(j))
  {
    var r := Resumed(j);
    assert forall i :: 0 <= i < |j.procs| ==> (r.procs[i].status == Done <==> j.procs[i].status == Done);
    if exists i :: 0 <= i < |j.procs| && j.procs[i].status == Stopped {
      var i :| 0 <= i < |j.procs| && j.procs[i].status == Stopped;
      assert r.procs[i].status == Running;
    }
  }

  /** The process after `waitpid` reported `st` for it: STOPPED on a stop, DONE on anything else. */
  function Record(p: Process, st: WaitStatus): Process
  {
    p.(status := if st.StoppedBy? then Stopped else Done)
  }

  // ---------------------------------------------------------------------
  // The reap step of job_notify

  /** A job that survives the pass: a stopped job has now been told about. */
  function Acknowledged(j: Job): Job
  {
    if JobIsStopped(j) then j.(notified := true) else j
  }

  /** `r` is a job of `js` that was not done, acknowledged. */
  ghost predicate Survives(js: seq<Job>, r: Job)
  {
    exists k :: 0 <= k < |js| && !JobIsDone(js[k]) && r == Acknowledged(js[k])
  }

  /** The jobs `job_notify` keeps, in their order: the ones not done, acknowledged. */
  function Reap(js: seq<Job>): seq<Job>
    decreases |js|
  {
    if js == [] then []
    else
      var last := js[|js| - 1];
      Reap(js[..|js| - 1]) + (if JobIsDone(last) then [] else [Acknowledged(last)])
  }

  /** The reap step removes exactly the done jobs and acknowledges the others. */
  lemma {:induction false} ReapRemovesExactlyDone(js: seq<Job>)
    ensures forall i :: 0 <= i < |Reap(js)| ==> Survives(js, Reap(js)[i])
    ensures forall k :: 0 <= k < |js| && !JobIsDone(js[k]) ==> Acknowledged(js[k]) in Reap(js)
    decreases |js|
  {
    if js != [] {
      var init := js[..|js| - 1];
      var last := js[|js| - 1];
      ReapRemovesExactlyDone(init);
      assert forall k :: 0 <= k < |init| ==> init[k] == js[k];
      forall i | 0 <= i < |Reap(js)|
        ensures Survives(js, Reap(js)[i])
      {
        if i < |Reap(init)| {
          assert Reap(js)[i] == Reap(init)[i];
          var k :| 0 <= k < |init| && !JobIsDone(init[k]) && Reap(init)[i] == Acknowledged(init[k]);
          assert js[k] == init[k];
        } else {
          assert !JobIsDone(last) && Reap(js)[i] == Acknowledged(last);
        }
      }
    }
  }

  /** A job number is still tracked after the reap step exactly when its job was not done. */
  lemma {:induction false} ReapTracks(js: seq<Job>, n: int)
    ensures Tracks(Reap(js), n) <==> exists k :: 0 <= k < |js| && js[k].num == n && !JobIsDone(js[k])
    decreases |js|
  {
    if js != [] {
      var init := js[..|js| - 1];
      ReapTracks(init, n);
      if exists k :: 0 <= k < |js| && js[k].num == n && !JobIsDone(js[k]) {
        var k :| 0 <= k < |js| && js[k].num == n && !JobIsDone(js[k]);
        if k < |js| - 1 {
          assert init[k] == js[k];
          var i :| 0 <= i < |Reap(init)| && Reap(init)[i].num == n;
          assert Reap(js)[i] == Reap(init)[i];
        } else {
          assert Reap(js)[|Reap(js)| - 1].num == n;
        }
      }
      if Tracks(Reap(js), n) {
        var i :| 0 <= i < |Reap(js)| && Reap(js)[i].num == n;
        if i < |Reap(init)| {
          assert Reap(init)[i] == Reap(js)[i];
          var k :| 0 <= k < |init| && init[k].num == n && !JobIsDone(init[k]);
          assert js[k] == init[k];
        }
      }
    }
  }

  /** The reap step keeps the numbering: survivors keep their numbers and their order. */
  lemma {:induction false} ReapKeepsNumbering(js: seq<Job>)
    requires Numbered(js)
    ensures Numbered(Reap(js))
    ensures Reap(js) != [] ==> LastNum(Reap(js)) <= LastNum(js)
    decreases |js|
  {
    if js != [] {
      var init := js[..|js| - 1];
      var last := js[|js| - 1];
      ReapKeepsNumbering(init);
      if !JobIsDone(last) {
        var r := Reap(js);
        assert r == Reap(init) + [Acknowledged(last)];
        forall i | 0 <= i < |Reap(init)|
          ensures Reap(init)[i].num < last.num
        {
          ReapTracks(init, Reap(init)[i].num);
          var k :| 0 <= k < |init| && init[k].num == Reap(init)[i].num && !JobIsDone(init[k]);
          assert init[k] == js[k];
        }
      } else if Reap(init) != [] {
        assert LastNum(init) < LastNum(js);
      }
    }
  }

  /** A survivor of the reap step is not done, and if it is stopped it has been told about. */
  predicate Settled(j: Job)
  {
    !JobIsDone(j) && (JobIsStopped(j) ==> j.notified)
  }

  lemma {:induction false} ReapSettles(js: seq<Job>)
    ensures forall i :: 0 <= i < |Reap(js)| ==> Settled(Reap(js)[i])
    decreases |js|
  {
    if js != [] {
      ReapSettles(js[..|js| - 1]);
    }
  }

  /** A second reap step right after the first changes nothing. */
  lemma {:induction false} ReapIdempotent(js: seq<Job>)
    ensures Reap(Reap(js)) == Reap(js)
  {
    ReapSettles(js);
    SettledSurvive(Reap(js));
  }

  lemma {:induction false} SettledSurvive(js: seq<Job>)
    requires forall i :: 0 <= i < |js| ==> Settled(js[i])
    ensures Reap(js) == js
    decreases |js|
  {
    if js != [] {
      var init := js[..|js| - 1];
      SettledSurvive(init);
      assert js == init + [js[|js| - 1]];
    }
  }
}
