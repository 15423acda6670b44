/**
  The job table of yash.c and the operations that change it: the list headed
  by `job_head` (here `jobs`), the globals `job_num`, `job_recent` and
  `job_fg`, the lines the shell prints, and the owner of the controlling
  terminal (ghost: only the hand-offs around a foreground wait are modelled).

  Status reports that `waitpid` would deliver are an explicit sequence of
  events. Each method is proved to change the list and the globals as the
  functions of module `Reports` say of the value `State()`, and the invariant
  `Valid` is `Consistent(State())`.
 */
module JobControl {
  import opened Wrappers
  import opened Jobs
  import opened Printing
  import opened Reports

  class Shell {
    var jobs: seq<Job>
    var jobNum: int
    var jobRecent: int
    var fg: Foreground
    var output: seq<Line>
    const shellPid: int
    ghost var terminal: int

    /** The job list and the globals, as a value. */
    function State(): Table
      reads this
    {
      Table(jobs, jobNum, jobRecent, fg)
    }

    ghost predicate Valid()
      reads this
    {
      Consistent(State())
    }

    /** The shell at start-up: no jobs, and the shell's own group owns the terminal. */
    constructor (shellPid: int)
      ensures Valid()
      ensures jobs == [] && jobNum == 0 && jobRecent == 0 && fg == NoJob && output == []
      ensures this.shellPid == shellPid && terminal == shellPid
    {
      jobs := [];
      jobNum := 0;
      jobRecent := 0;
      fg := NoJob;
      output := [];
      this.shellPid := shellPid;
      terminal := shellPid;
    }

    /** `job_add`: append the job at the tail, numbered one past `job_num`. */
    method JobAdd(job: Job)
      requires Valid()
      modifies this
      ensures Valid()
      ensures jobs == old(jobs) + [job.(num := old(jobNum) + 1)]
      ensures jobNum == old(jobNum) + 1
      ensures jobRecent == old(jobRecent) && fg == old(fg)
      ensures output == old(output) && terminal == old(terminal)
    {
      AppendKeepsNumbering(jobs, job);
      ghost var before := jobs;
      jobNum := jobNum + 1;
      jobs := jobs + [job.(num := jobNum)];
      assert forall k :: 0 <= k < |before| ==> jobs[k] == before[k];
    }

    /**
      `mark_process_status`: apply one report of `waitpid`. A report for a
      process of a tracked job marks it (`MarkedJob`) and returns true; a stop
      makes that job the most recent one. A report for an unknown pid returns
      false; if it is a SIGTSTP stop of the job just launched in the
      foreground, that job joins the table marked the same way, and becomes
      the most recent job and the tracked foreground job.
     */
    method MarkProcessStatus(pid: int, st: WaitStatus) returns (marked: bool)
      requires Valid()
      modifies this
      ensures Valid()
      ensures output == old(output) && terminal == old(terminal)
      ensures marked <==> pid > 0 && JobFind(old(jobs), pid).Some?
      ensures marked ==>
        var k := JobFind(old(jobs), pid).value;
        && jobs == old(jobs)[k := MarkedJob(old(jobs)[k], ProcessFind(old(jobs)[k], pid).value, st)]
        && jobRecent == (if st.StoppedBy? then old(jobs)[k].num else old(jobRecent))
        && jobNum == old(jobNum) && fg == old(fg)
      ensures !marked && AdoptsForeground(old(jobs), old(fg), pid, st) ==>
        var n := old(jobNum) + 1;
        var j := old(fg).job.(num := n);
        && jobs == old(jobs) + [MarkedJob(j, ProcessFind(j, pid).value, st)]
        && jobNum == n && jobRecent == n && fg == Tracked(n)
      ensures !marked && !AdoptsForeground(old(jobs), old(fg), pid, st) ==>
        jobs == old(jobs) && jobNum == old(jobNum) && jobRecent == old(jobRecent) && fg == old(fg)
      ensures !old(fg).Launched? ==> SameNums(jobs, old(jobs)) && jobNum == old(jobNum) && fg == old(fg)
      ensures Marked(State(), marked) == Mark(old(State()), Event(pid, st))
    {
      if pid <= 0 {
        return false;
      }
      var found := JobFind(jobs, pid);
      if found.Some? {
        RecordReport(found.value, pid, st);
        return true;
      }
      if st.StoppedBy? && st.signal == SIGTSTP && fg.Launched? && ProcessFind(fg.job, pid).Some? {
        AdoptForeground(pid, st);
      }
      return false;
    }

    /** The report `st` for process `pid` of the tracked job `k` (the search loop of `mark_process_status`). */
    method RecordReport(k: nat, pid: int, st: WaitStatus)
      requires Valid() && k < |jobs| && ProcessFind(jobs[k], pid).Some?
      modifies this
      ensures Valid()
      ensures jobs == old(jobs)[k := MarkedJob(old(jobs)[k], ProcessFind(old(jobs)[k], pid).value, st)]
      ensures SameNums(jobs, old(jobs))
      ensures jobRecent == (if st.StoppedBy? then old(jobs)[k].num else old(jobRecent))
      ensures jobNum == old(jobNum) && fg == old(fg) && output == old(output) && terminal == old(terminal)
    {
      var j := jobs[k];
      var m := ProcessFind(j, pid).value;
      var updated := j.(procs := j.procs[m := Record(j.procs[m], st)]);
      if st.StoppedBy? {
        jobRecent := j.num;
        if st.signal == SIGTSTP {
          updated := updated.(notified := true);
        }
      }
      SameNumbers(jobs, k, updated);
      jobs := jobs[k := updated];
      assert jobs[k].num == j.num;
    }

    /**
      A SIGTSTP stop of process `pid` of the job just launched in the
      foreground: the job joins the table with that process stopped and
      becomes the most recent and the tracked foreground job.
     */
    method AdoptForeground(pid: int, st: WaitStatus)
      requires Valid() && fg.Launched? && ProcessFind(fg.job, pid).Some? && st.StoppedBy? && st.signal == SIGTSTP
      modifies this
      ensures Valid()
      ensures var n := old(jobNum) + 1;
        var j := old(fg).job.(num := n);
        && jobs == old(jobs) + [MarkedJob(j, ProcessFind(j, pid).value, st)]
        && jobNum == n && jobRecent == n && fg == Tracked(n)
      ensures output == old(output) && terminal == old(terminal)
    {
      var m := ProcessFind(fg.job, pid).value;
      JobAdd(fg.job);
      var last := |jobs| - 1;
      var added := jobs[last];
      var adopted := added.(procs := added.procs[m := added.procs[m].(status := Stopped)], notified := true);
      SameNumbers(jobs, last, adopted);
      jobs := jobs[last := adopted];
      jobRecent := jobNum;
      fg := Tracked(jobNum);
      assert jobs[last].num == jobNum;
    }

    /**
      `update_status`: drain the pending reports without blocking, applying
      each, until one is not marked or none is left. The new table and the
      number of reports consumed are those of `Drain`; every report but the
      last one consumed had a real pid.
     */
    method UpdateStatus(events: seq<Event>) returns (used: nat)
      requires Valid()
      modifies this
      ensures Valid()
      ensures Drained(State(), used) == Drain(old(State()), events, false)
      ensures used <= |events| && (used == 0 <==> events == [])
      ensures forall i :: 0 <= i < used - 1 ==> events[i].pid > 0
      ensures output == old(output) && terminal == old(terminal)
      ensures old(fg).Tracked? || old(fg).NoJob? ==> fg == old(fg)
    {
      used := 0;
      assert events[0..] == events;
      while used < |events|
        invariant Valid() && used <= |events|
        invariant var r := Drain(State(), events[used..], false); Drain(old(State()), events, false) == Drained(r.t, r.used + used)
        invariant forall i :: 0 <= i < used ==> events[i].pid > 0
        invariant output == old(output) && terminal == old(terminal)
      {
        assert events[used..][1..] == events[used + 1..];
        var marked := MarkProcessStatus(events[used].pid, events[used].status);
        used := used + 1;
        if !marked {
          break;
        }
      }
      DrainKeeps(old(State()), events, false);
    }

    /**
      `wait_for_job` on the foreground job: consume reports one at a time,
      applying each, until one is not marked or the foreground job has no
      running process left. The new table and the number of reports consumed
      are those of `Drain` while waiting.
     */
    method WaitForJob(events: seq<Event>) returns (used: nat)
      requires Valid()
      requires fg.Launched? || fg.Tracked?
      modifies this
      ensures Valid()
      ensures Drained(State(), used) == Drain(old(State()), events, true)
      ensures used <= |events| && (used == 0 <==> events == [])
      ensures forall i :: 0 <= i < used - 1 ==> events[i].pid > 0
      ensures output == old(output) && terminal == old(terminal)
      ensures old(fg).Tracked? ==> fg == old(fg)
      ensures old(fg).Launched? ==> fg == old(fg) || fg.Tracked?
      ensures old(fg).Tracked? ==> SameNums(jobs, old(jobs)) && jobNum == old(jobNum)
      ensures events == [] ==> jobs == old(jobs) && jobNum == old(jobNum) && jobRecent == old(jobRecent)
    {
      used := 0;
      assert events[0..] == events;
      while used < |events|
        invariant Valid() && used <= |events|
        invariant var r := Drain(State(), events[used..], true); Drain(old(State()), events, true) == Drained(r.t, r.used + used)
        invariant forall i :: 0 <= i < used ==> events[i].pid > 0
        invariant output == old(output) && terminal == old(terminal)
      {
        assert events[used..][1..] == events[used + 1..];
        var marked := MarkProcessStatus(events[used].pid, events[used].status);
        used := used + 1;
        if !marked || ForegroundStopped(State()) {
          break;
        }
      }
      DrainKeeps(old(State()), events, true);
    }

    /**
      `put_job_in_background(job, 0)`: a newly launched background job joins
      the table, its placement line is printed, and it becomes the most recent job.
     */
    method PutJobInBackground(job: Job)
      requires Valid()
      modifies this
      ensures Valid()
      ensures jobs == old(jobs) + [job.(num := old(jobNum) + 1)]
      ensures jobNum == old(jobNum) + 1 && jobRecent == jobNum
      ensures output == old(output) + [Placed(jobNum, job.pgid)]
      ensures fg == old(fg) && terminal == old(terminal)
    {
      JobAdd(job);
      output := output + [Placed(jobNum, job.pgid)];
      jobRecent := jobNum;
    }

    /**
      `put_job_in_foreground`: hand the terminal to the job's group, make it
      the foreground job, wait for it, and take the terminal back for the
      shell. `target` is the job just launched or a tracked job being resumed.
      The table afterwards is that of `Drain` while waiting, from the table
      with `target` as `job_fg`.
     */
    method PutJobInForeground(target: Foreground, events: seq<Event>) returns (used: nat)
      requires Valid()
      requires target.Launched? || (target.Tracked? && Tracks(jobs, target.num))
      modifies this
      ensures Valid()
      ensures Drained(State(), used) == Drain(old(State()).(fg := target), events, true)
      ensures terminal == shellPid
      ensures output == old(output)
      ensures used <= |events|
      ensures target.Tracked? ==> fg == target
      ensures target.Launched? ==> fg == target || fg.Tracked?
      ensures target.Tracked? ==> SameNums(jobs, old(jobs)) && jobNum == old(jobNum)
      ensures events == [] ==> jobs == old(jobs) && jobNum == old(jobNum) && jobRecent == old(jobRecent)
    {
      var pgid := 0;
      if target.Launched? {
        pgid := target.job.pgid;
      } else {
        var k := FindNum(jobs, target.num, 0);
        pgid := jobs[k.value].pgid;
      }
      terminal := pgid;
      fg := target;
      used := WaitForJob(events);
      terminal := shellPid;
    }

    /**
      `mark_job_as_running`: every STOPPED process of job `k` becomes RUNNING,
      the others are left alone, and the job is no longer counted as told about.
     */
    method MarkJobAsRunning(k: nat)
      requires Valid() && k < |jobs|
      modifies this
      ensures Valid()
      ensures jobs == old(jobs)[k := Resumed(old(jobs)[k])] && SameNums(jobs, old(jobs))
      ensures jobNum == old(jobNum) && jobRecent == old(jobRecent) && fg == old(fg)
      ensures output == old(output) && terminal == old(terminal)
    {
      var j := jobs[k];
      var procs := j.procs;
      var i := 0;
      while i < |procs|
        invariant i <= |procs| == |j.procs|
        invariant forall m :: 0 <= m < i ==> procs[m] == Resume(j.procs[m])
        invariant forall m :: i <= m < |procs| ==> procs[m] == j.procs[m]
      {
        if procs[i].status == Stopped {
          procs := procs[i := procs[i].(status := Running)];
        }
        i := i + 1;
      }
      assert procs == Resumed(j).procs;
      SameNumbers(jobs, k, j.(procs := procs, notified := false));
      jobs := jobs[k := j.(procs := procs, notified := false)];
    }

    /**
      `continue_job`: resume job `k`, then either wait for it in the
      foreground, as `Drain` while waiting says, or
      (`put_job_in_background(j, 1)`) leave it running in the background as
      the most recent job.
     */
    method ContinueJob(k: nat, foreground: bool, events: seq<Event>) returns (used: nat)
      requires Valid() && k < |jobs|
      modifies this
      ensures Valid()
      ensures output == old(output)
      ensures SameNums(jobs, old(jobs)) && jobNum == old(jobNum)
      ensures !foreground ==>
        && jobs == old(jobs)[k := Resumed(old(jobs)[k])]
        && jobRecent == old(jobs)[k].num
        && jobNum == old(jobNum) && fg == old(fg) && terminal == old(terminal) && used == 0
      ensures foreground ==>
        && Drained(State(), used) == Drain(ResumeAt(old(State()), k).(fg := Tracked(old(jobs)[k].num)), events, true)
        && terminal == shellPid && fg == Tracked(old(jobs)[k].num) && used <= |events|
        && (events == [] ==> jobs == old(jobs)[k := Resumed(old(jobs)[k])] && jobRecent == old(jobRecent))
    {
      MarkJobAsRunning(k);
      if foreground {
        used := PutJobInForeground(Tracked(jobs[k].num), events);
      } else {
        jobRecent := jobs[k].num;
        used := 0;
      }
    }

    /**
      The body of the `job_notify` loop for job `j`, where `kept` are the jobs
      still linked before it: a done job is announced (unless `skipNotify`, and
      never when it is the foreground job) and unlinked, and `job_num`,
      `job_recent` and `job_fg` stop naming it; a stopped job not yet told
      about is announced (unless `skipNotify`) and marked as told about.
     */
    method VisitJob(j: Job, kept: seq<Job>, skipNotify: bool) returns (next: seq<Job>)
      requires j.num >= 1
      modifies this
      ensures jobs == old(jobs) && terminal == old(terminal)
      ensures next == kept + (if JobIsDone(j) then [] else [Acknowledged(j)])
      ensures jobNum == (if JobIsDone(j) && j.num == old(jobNum) then LastNum(kept) else old(jobNum))
      ensures jobRecent == (if JobIsDone(j) && old(jobRecent) == j.num then jobNum else old(jobRecent))
      ensures fg == (if JobIsDone(j) && old(fg) == Tracked(j.num) then NoJob else old(fg))
      ensures output == old(output) + NoticeFor(j, old(jobRecent), skipNotify, FgNum(old(fg)))
    {
      next := kept;
      if JobIsDone(j) {
        if !skipNotify && fg != Tracked(j.num) {
          output := output + [NoticeOf(j, jobRecent, Done)];
        }
        if j.num == jobNum {
          jobNum := LastNum(kept);
        }
        if jobRecent == j.num {
          jobRecent := jobNum;
        }
        if fg == Tracked(j.num) {
          fg := NoJob;
        }
      } else if JobIsStopped(j) && !j.notified {
        if !skipNotify {
          output := output + [NoticeOf(j, jobRecent, Stopped)];
        }
        next := kept + [j.(notified := true)];
      } else {
        next := kept + [j];
      }
    }

    /**
      One pass of `job_notify` over the table, after the reports have been
      applied: every job is visited in table order; the table becomes `Pass`
      of the old one, and the lines printed are those `Notices` gives. The
      jobs still linked are collected in `kept`, which becomes the list when
      the pass ends; nothing reads the list in between.
     */
    method NotifyPass(skipNotify: bool)
      requires Valid()
      modifies this
      ensures Valid()
      ensures State() == Pass(old(State()))
      ensures output == old(output) + Notices(old(jobs), old(jobRecent), LastNum(old(jobs)), skipNotify, FgNum(old(fg)))
      ensures terminal == old(terminal)
    {
      ghost var t0 := State();
      ghost var out0 := output;
      var all := jobs;
      var kept: seq<Job> := [];
      var i := 0;
      PassStart(t0, skipNotify, out0);
      while i < |all|
        invariant all == t0.jobs && i <= |all|
        invariant PassState(t0, i, skipNotify, out0, Table(kept, jobNum, jobRecent, fg), output)
        invariant terminal == old(terminal)
      {
        ghost var s, out := Table(kept, jobNum, jobRecent, fg), output;
        kept := VisitJob(all[i], kept, skipNotify);
        PassStep(t0, i, skipNotify, out0, s, out, Table(kept, jobNum, jobRecent, fg), output);
        i := i + 1;
      }
      // the list with the done jobs unlinked
      jobs := kept;
      PassEnd(t0, skipNotify, out0, State(), output);
    }

    /**
      `job_notify(skip_notify)`: drain the pending reports, then run the
      notification pass over the drained table, printing its `Notices`.
      Afterwards no done job is tracked, every stopped job has been told
      about, and with `skipNotify` nothing was printed.
     */
    method JobNotify(skipNotify: bool, events: seq<Event>) returns (used: nat)
      requires Valid()
      modifies this
      ensures Valid()
      ensures var d := Drain(old(State()), events, false);
        && used == d.used && State() == Pass(d.t)
        && output == old(output) + Notices(d.t.jobs, d.t.jobRecent, LastNum(d.t.jobs), skipNotify, FgNum(d.t.fg))
      ensures used <= |events|
      ensures forall k :: 0 <= k < |jobs| ==> Settled(jobs[k])
      ensures skipNotify ==> output == old(output)
      ensures terminal == old(terminal)
    {
      used := UpdateStatus(events);
      ghost var drained := State();
      NotifyPass(skipNotify);
      if skipNotify {
        NoticesSkipped(drained.jobs, drained.jobRecent, LastNum(drained.jobs), FgNum(drained.fg));
      }
    }

    /**
      `do_jobs`: print one line per tracked job, in table order, with its
      status; the table is left as it is.
     */
    method DoJobs()
      requires Valid()
      modifies this`output
      ensures Valid()
      ensures output == old(output) + Listing(jobs, jobRecent)
    {
      var i := 0;
      while i < |jobs|
        invariant i <= |jobs|
        invariant output == old(output) + Listing(jobs[..i], jobRecent)
      {
        var j := jobs[i];
        var status := if JobIsDone(j) then Done else if JobIsStopped(j) then Stopped else Running;
        assert Listing(jobs[..i + 1], jobRecent) == Listing(jobs[..i], jobRecent) + [NoticeOf(j, jobRecent, status)];
        output := output + [NoticeOf(j, jobRecent, status)];
        i := i + 1;
      }
      assert jobs[..i] == jobs;
    }

    /**
      One step of the walk of `do_fg`, at job `i`: if it has the number
      `job_recent` and is not done, its command line is echoed and it is
      resumed and waited for in the foreground, as `Drain` while waiting
      says; otherwise nothing changes.
     */
    method ForegroundStep(i: nat, events: seq<Event>) returns (used: nat)
      requires Valid() && i < |jobs|
      modifies this
      ensures Valid()
      ensures SameNums(jobs, old(jobs)) && jobNum == old(jobNum) && used <= |events|
      ensures !(old(jobs)[i].num == old(jobRecent) && !JobIsDone(old(jobs)[i])) ==> unchanged(this) && used == 0
      ensures old(jobs)[i].num == old(jobRecent) && !JobIsDone(old(jobs)[i]) ==>
        && Drained(State(), used) == Drain(ResumeAt(old(State()), i).(fg := Tracked(old(jobRecent))), events, true)
        && output == old(output) + [Echo(old(jobs)[i].cmdline)]
        && terminal == shellPid && fg == Tracked(old(jobRecent))
        && (events == [] ==> jobs == old(jobs)[i := Resumed(old(jobs)[i])] && jobRecent == old(jobRecent))
    {
      used := 0;
      if jobs[i].num == jobRecent && !JobIsDone(jobs[i]) {
        output := output + [Echo(jobs[i].cmdline)];
        used := ContinueJob(i, true, events);
      }
    }

    /**
      `do_fg`: with no job or no most recent job, print the fixed message and
      change nothing. Otherwise walk the table as `FgWalk` says: each job
      that, when reached, has the number `job_recent` and is not done has its
      command line echoed, is resumed, and is waited for in the foreground.
      The first such job is the most recent job when the command starts; if a
      report during that wait makes a later job the most recent, the walk
      goes on to that job too.
     */
    method DoFg(events: seq<Event>) returns (used: nat)
      requires Valid()
      modifies this
      ensures Valid()
      ensures SameNums(jobs, old(jobs)) && jobNum == old(jobNum) && used <= |events|
      ensures old(output) <= output
      ensures forall n :: |old(output)| <= n < |output| ==> output[n].Echo? || output[n].NoSuchJob?
      ensures old(jobNum) == 0 || old(jobRecent) == 0 ==>
        && output == old(output) + [NoSuchJob("fg")]
        && jobs == old(jobs) && jobRecent == old(jobRecent)
        && fg == old(fg) && terminal == old(terminal) && used == 0
      ensures old(jobNum) != 0 && old(jobRecent) != 0 ==>
        var w := FgWalk(old(State()), 0, events);
        && State() == w.t && output == old(output) + w.out && used == w.used
        && terminal == (if w.out == [] then old(terminal) else shellPid)
      ensures old(jobNum) != 0 && old(jobRecent) != 0 ==>
        var k := FindNum(old(jobs), old(jobRecent), 0).value;
        if JobIsDone(old(jobs)[k]) then
          && output == old(output) && jobs == old(jobs)
          && jobRecent == old(jobRecent) && fg == old(fg) && terminal == old(terminal) && used == 0
        else
          && |old(output)| < |output| && output[|old(output)|] == Echo(old(jobs)[k].cmdline)
          && terminal == shellPid && fg.Tracked?
          && (events == [] ==>
                && output == old(output) + [Echo(old(jobs)[k].cmdline)]
                && jobs == old(jobs)[k := Resumed(old(jobs)[k])]
                && jobRecent == old(jobRecent) && fg == Tracked(old(jobRecent)))
    {
      used := 0;
      if jobNum == 0 || jobRecent == 0 {
        output := output + [NoSuchJob("fg")];
        return;
      }
      ghost var t0 := State();
      ghost var w0 := FgWalk(t0, 0, events);
      FgWalkKeeps(t0, 0, events);
      FgWalkFirst(t0, events);
      var i := 0;
      assert events[0..] == events;
      while i < |jobs|
        invariant Valid() && i <= |jobs|
        invariant WalkedSoFar(w0, old(output), events, State(), i, used, output)
        invariant old(output) <= output
        invariant terminal == (if output == old(output) then old(terminal) else shellPid)
      {
        ghost var s, out, i0, used0 := State(), output, i, used;
        var u := ForegroundStep(i, events[used..]);
        used := used + u;
        i := i + 1;
        WalkStep(w0, old(output), events, s, i0, used0, out, State(), i, used, output);
      }
      assert output == old(output) + w0.out;
      assert forall n :: |old(output)| <= n < |output| ==> output[n] == w0.out[n - |old(output)|];
    }

    /**
      `do_bg`: the same guard as `do_fg`, then the same walk; a job with the
      number `job_recent` that is not done has its command line echoed and is
      resumed in the background. Numbers are unique, so the walk resumes at
      most that one job.
     */
    method DoBg()
      requires Valid()
      modifies this
      ensures Valid()
      ensures old(jobNum) == 0 || old(jobRecent) == 0 ==>
        && output == old(output) + [NoSuchJob("bg")]
        && jobs == old(jobs) && jobNum == old(jobNum) && jobRecent == old(jobRecent)
        && fg == old(fg) && terminal == old(terminal)
      ensures old(jobNum) != 0 && old(jobRecent) != 0 ==>
        var k := FindNum(old(jobs), old(jobRecent), 0).value;
        && jobNum == old(jobNum) && jobRecent == old(jobRecent) && fg == old(fg) && terminal == old(terminal)
        && if JobIsDone(old(jobs)[k]) then
             output == old(output) && jobs == old(jobs)
           else
             output == old(output) + [Echo(old(jobs)[k].cmdline)] && jobs == old(jobs)[k := Resumed(old(jobs)[k])]
    {
      if jobNum == 0 || jobRecent == 0 {
        output := output + [NoSuchJob("bg")];
        return;
      }
      ghost var k := FindNum(jobs, jobRecent, 0).value;
      ghost var done := JobIsDone(jobs[k]);
      var i := 0;
      while i < |jobs|
        invariant Valid() && i <= |jobs| && SameNums(jobs, old(jobs))
        invariant jobNum == old(jobNum) && jobRecent == old(jobRecent) && fg == old(fg) && terminal == old(terminal)
        invariant i <= k || done ==> jobs == old(jobs) && output == old(output)
        invariant k < i && !done ==>
          output == old(output) + [Echo(old(jobs)[k].cmdline)] && jobs == old(jobs)[k := Resumed(old(jobs)[k])]
      {
        if jobs[i].num == jobRecent && !JobIsDone(jobs[i]) {
          output := output + [Echo(jobs[i].cmdline)];
          var _ := ContinueJob(i, false, []);
        }
        i := i + 1;
      }
    }
  }

  // ---------------------------------------------------------------------
  // One step of the notification pass, on values

  /**
    Number `n` is removed among the first `i + 1` jobs exactly when it is
    removed among the first `i` or job `i` has it and is done; a number
    removed before job `i` is not the number of job `i`.
   */
  lemma RemovesStep(all: seq<Job>, i: nat, n: int)
    requires i < |all| && Numbered(all)
    ensures RemovesNum(all[..i + 1], n) <==> RemovesNum(all[..i], n) || (all[i].num == n && JobIsDone(all[i]))
    ensures RemovesNum(all[..i], n) ==> n != all[i].num
  {
    assert all[..i + 1][..i] == all[..i];
    RemovesNumWitness(all[..i], n);
    if RemovesNum(all[..i], n) {
      var k :| 0 <= k < i && all[..i][k].num == n && JobIsDone(all[..i][k]);
      assert all[k].num < all[i].num;
    }
  }

  /** Reaping one more job keeps it, acknowledged, unless it is done. */
  lemma KeptStep(all: seq<Job>, i: nat)
    requires i < |all|
    ensures Reap(all[..i + 1]) == Reap(all[..i]) + (if JobIsDone(all[i]) then [] else [Acknowledged(all[i])])
    ensures Acknowledged(all[i]) == (if JobIsStopped(all[i]) && !all[i].notified then all[i].(notified := true) else all[i])
  {
    assert all[..i + 1][..i] == all[..i];
  }

  /** The lines printed so far grow by what `NoticeFor` says for job `i`. */
  lemma NoticesStep(all: seq<Job>, i: nat, recent0: int, skip: bool, fgNum: int)
    requires i < |all|
    ensures Notices(all[..i + 1], recent0, LastNum(all), skip, fgNum) ==
      Notices(all[..i], recent0, LastNum(all), skip, fgNum) +
      NoticeFor(all[i], RecentDuring(all[..i], recent0, LastNum(all)), skip, fgNum)
  {
    assert all[..i + 1][..i] == all[..i] && all[..i + 1][i] == all[i];
  }

  /**
    The state `t` of the notification pass over table `t0` after its first
    `i` jobs, with the lines `out` printed since `out0`: the jobs kept are the
    reaped prefix; `job_num` is the number of the last job of the table until
    that job has been visited; `job_recent` and `job_fg` have moved off a job
    once it was removed; and the lines printed are those of the prefix.
   */
  ghost predicate PassState(t0: Table, i: nat, skip: bool, out0: seq<Line>, t: Table, out: seq<Line>)
    requires i <= |t0.jobs|
  {
    && PassTable(t0, i, t)
    && out == out0 + Notices(t0.jobs[..i], t0.jobRecent, LastNum(t0.jobs), skip, FgNum(t0.fg))
  }

  /** The table half of `PassState`. */
  ghost predicate PassTable(t0: Table, i: nat, t: Table)
    requires i <= |t0.jobs|
  {
    var all := t0.jobs;
    && t.jobs == Reap(all[..i])
    && t.jobNum == (if i < |all| then LastNum(all) else LastNum(t.jobs))
    && t.jobRecent == (if RemovesNum(all[..i], t0.jobRecent) then t.jobNum else t0.jobRecent)
    && t.fg == (if t0.fg.Tracked? && RemovesNum(all[..i], t0.fg.num) then NoJob else t0.fg)
  }

  lemma PassStart(t0: Table, skip: bool, out0: seq<Line>)
    requires Consistent(t0)
    ensures PassState(t0, 0, skip, out0, Table([], t0.jobNum, t0.jobRecent, t0.fg), out0)
  {
    assert t0.jobs[..0] == [];
  }

  /** Visiting job `i` as `VisitJob` does takes the pass from its state after `i` jobs to the state after `i + 1`. */
  lemma PassStep(t0: Table, i: nat, skip: bool, out0: seq<Line>, t: Table, out: seq<Line>, t': Table, out': seq<Line>)
    requires i < |t0.jobs| && Numbered(t0.jobs)
    requires PassState(t0, i, skip, out0, t, out)
    requires var j := t0.jobs[i];
      && t'.jobs == t.jobs + (if JobIsDone(j) then [] else [Acknowledged(j)])
      && t'.jobNum == (if JobIsDone(j) && j.num == t.jobNum then LastNum(t.jobs) else t.jobNum)
      && t'.jobRecent == (if JobIsDone(j) && t.jobRecent == j.num then t'.jobNum else t.jobRecent)
      && t'.fg == (if JobIsDone(j) && t.fg == Tracked(j.num) then NoJob else t.fg)
      && out' == out + NoticeFor(j, t.jobRecent, skip, FgNum(t.fg))
    ensures PassState(t0, i + 1, skip, out0, t', out')
  {
    PassStepTable(t0, i, t, t');
    PassStepOutput(t0, i, skip, out0, t, out, out');
  }

  /** The table half of `PassStep`. */
  lemma PassStepTable(t0: Table, i: nat, t: Table, t': Table)
    requires i < |t0.jobs| && Numbered(t0.jobs)
    requires PassTable(t0, i, t)
    requires var j := t0.jobs[i];
      && t'.jobs == t.jobs + (if JobIsDone(j) then [] else [Acknowledged(j)])
      && t'.jobNum == (if JobIsDone(j) && j.num == t.jobNum then LastNum(t.jobs) else t.jobNum)
      && t'.jobRecent == (if JobIsDone(j) && t.jobRecent == j.num then t'.jobNum else t.jobRecent)
      && t'.fg == (if JobIsDone(j) && t.fg == Tracked(j.num) then NoJob else t.fg)
    ensures PassTable(t0, i + 1, t')
  {
    var all := t0.jobs;
    KeptStep(all, i);
    RemovesStep(all, i, t0.jobRecent);
    RemovesStep(all, i, FgNum(t0.fg));
    if i + 1 < |all| {
      assert all[i].num < all[|all| - 1].num;
    }
  }

  /** The output half of `PassStep`: the notice printed for job `i` extends the notices of the jobs before it. */
  lemma PassStepOutput(t0: Table, i: nat, skip: bool, out0: seq<Line>, t: Table, out: seq<Line>, out': seq<Line>)
    requires i < |t0.jobs| && Numbered(t0.jobs)
    requires PassTable(t0, i, t)
    requires out == out0 + Notices(t0.jobs[..i], t0.jobRecent, LastNum(t0.jobs), skip, FgNum(t0.fg))
    requires out' == out + NoticeFor(t0.jobs[i], t.jobRecent, skip, FgNum(t.fg))
    ensures out' == out0 + Notices(t0.jobs[..i + 1], t0.jobRecent, LastNum(t0.jobs), skip, FgNum(t0.fg))
  {
    var all := t0.jobs;
    RemovesStep(all, i, t0.jobRecent);
    RemovesStep(all, i, FgNum(t0.fg));
    NoticesStep(all, i, t0.jobRecent, skip, FgNum(t0.fg));
    assert NoticeFor(all[i], t.jobRecent, skip, FgNum(t.fg)) == NoticeFor(all[i], t.jobRecent, skip, FgNum(t0.fg));
  }

  /** When every job has been visited the state is `Pass` of the table, which is consistent again. */
  lemma PassEnd(t0: Table, skip: bool, out0: seq<Line>, t: Table, out: seq<Line>)
    requires Consistent(t0)
    requires PassState(t0, |t0.jobs|, skip, out0, t, out)
    ensures t == Pass(t0) && Consistent(t)
    ensures out == out0 + Notices(t0.jobs, t0.jobRecent, LastNum(t0.jobs), skip, FgNum(t0.fg))
  {
    assert t0.jobs[..|t0.jobs|] == t0.jobs;
    PassKeeps(t0);
  }

  // ---------------------------------------------------------------------
  // The walk of do_fg, step by step

  /**
    The loop of `do_fg` before job `i`, having consumed `used` reports and
    printed `out`: the rest of the walk from the table `t` leads to the same
    result `w0` as the whole walk, which started with the lines `out0`.
   */
  ghost predicate WalkedSoFar(w0: Walked, out0: seq<Line>, events: seq<Event>, t: Table, i: nat, used: nat, out: seq<Line>)
  {
    && used <= |events| && Consistent(t)
    && var w := FgWalk(t, i, events[used..]);
       w0.t == w.t && out0 + w0.out == out + w.out && w0.used == used + w.used
  }

  /**
    One step of the loop of `do_fg`, as `ForegroundStep` takes it from `t` to
    `t'`, keeps `WalkedSoFar`.
   */
  lemma WalkStep(w0: Walked, out0: seq<Line>, events: seq<Event>, t: Table, i: nat, used: nat, out: seq<Line>,
                 t': Table, i': nat, used': nat, out': seq<Line>)
    requires i < |t.jobs| && i' == i + 1 && used <= used' && WalkedSoFar(w0, out0, events, t, i, used, out)
    requires !(t.jobs[i].num == t.jobRecent && !JobIsDone(t.jobs[i])) ==> t' == t && used' == used && out' == out
    requires t.jobs[i].num == t.jobRecent && !JobIsDone(t.jobs[i]) ==>
      && Drained(t', used' - used) == Drain(ResumeAt(t, i).(fg := Tracked(t.jobRecent)), events[used..], true)
      && out' == out + [Echo(t.jobs[i].cmdline)]
    ensures WalkedSoFar(w0, out0, events, t', i', used', out')
  {
    FgWalkAt(t, i, events[used..]);
    if t.jobs[i].num == t.jobRecent && !JobIsDone(t.jobs[i]) {
      WalkStepOn(w0, out0, events, t, i, used, out, t', used', out');
    }
  }

  /** `WalkStep` at a job that is brought to the foreground. */
  lemma WalkStepOn(w0: Walked, out0: seq<Line>, events: seq<Event>, t: Table, i: nat, used: nat, out: seq<Line>,
                   t': Table, used': nat, out': seq<Line>)
    requires i < |t.jobs| && used <= used' && WalkedSoFar(w0, out0, events, t, i, used, out)
    requires t.jobs[i].num == t.jobRecent && !JobIsDone(t.jobs[i])
    requires Drained(t', used' - used) == Drain(ResumeAt(t, i).(fg := Tracked(t.jobRecent)), events[used..], true)
    requires out' == out + [Echo(t.jobs[i].cmdline)]
    ensures WalkedSoFar(w0, out0, events, t', i + 1, used', out')
  {
    var rest := events[used..];
    FgWalkAt(t, i, rest);
    HandOffKeeps(t, i, rest);
    var d := Drain(ResumeAt(t, i).(fg := Tracked(t.jobRecent)), rest, true);
    assert d.t == t' && d.used == used' - used;
    assert rest[d.used..] == events[used'..];
    var next := FgWalk(t', i + 1, events[used'..]);
    assert FgWalk(t, i, rest) == Walked(next.t, [Echo(t.jobs[i].cmdline)] + next.out, d.used + next.used);
    Regroup(out, [Echo(t.jobs[i].cmdline)], next.out);
  }

  /** Printing `b` and then `c` after `a` prints `a + b` and then `c`. */
  lemma Regroup(a: seq<Line>, b: seq<Line>, c: seq<Line>)
    ensures a + (b + c) == (a + b) + c
  {
  }
}
