/**
  The job table of yash.c as a value, and what status reports do to it.

  `Table` holds the job list with the globals `job_num`, `job_recent` and
  `job_fg`. `Mark` is `mark_process_status` applied to one report. `Drain` is
  the loop of `update_status` or, while waiting for the foreground job, of
  `wait_for_job`, over a sequence of reports. `Pass` is the table after the
  notification pass of `job_notify`, and `FgWalk` is the walk of `do_fg`.
  The methods of `JobControl.Shell` change their fields as these functions say.
 */
module Reports {
  import opened Wrappers
  import opened Jobs
  import opened Printing

  /** The job list and the globals `job_num`, `job_recent` and `job_fg`. */
  datatype Table = Table(jobs: seq<Job>, jobNum: int, jobRecent: int, fg: Foreground)

  /**
    What the comments of yash.c promise: job numbers ascend along the list,
    `job_num` is the number of the last job (0 when the list is empty),
    `job_recent` is 0 or the number of a tracked job, and a tracked `job_fg`
    names a tracked job.
   */
  ghost predicate Consistent(t: Table)
  {
    && Numbered(t.jobs)
    && t.jobNum == LastNum(t.jobs)
    && (t.jobRecent == 0 || Tracks(t.jobs, t.jobRecent))
    && (t.fg.Tracked? ==> Tracks(t.jobs, t.fg.num))
  }

  /** The job number `job_fg != j` compares against; 0 matches no tracked job. */
  function FgNum(fg: Foreground): int
  {
    if fg.Tracked? then fg.num else 0
  }

  /** Replacing a job by one with the same number keeps the numbering and every tracked number. */
  lemma SameNumbers(js: seq<Job>, k: nat, j: Job)
    requires k < |js| && j.num == js[k].num
    ensures Numbered(js) ==> Numbered(js[k := j])
    ensures LastNum(js[k := j]) == LastNum(js)
    ensures forall n :: Tracks(js, n) ==> Tracks(js[k := j], n)
    ensures SameNums(js[k := j], js)
  {
    var js' := js[k := j];
    assert forall i :: 0 <= i < |js| ==> js'[i].num == js[i].num;
    forall n | Tracks(js, n)
      ensures Tracks(js', n)
    {
      var i :| 0 <= i < |js| && js[i].num == n;
      assert js'[i].num == n;
    }
  }

  // ---------------------------------------------------------------------
  // mark_process_status

  /**
    The case of `mark_process_status` where the pid belongs to no tracked job
    but was stopped by SIGTSTP, and the job just launched in the foreground
    owns it: that job is added to the table.
   */
  predicate AdoptsForeground(js: seq<Job>, fg: Foreground, pid: int, st: WaitStatus)
  {
    && pid > 0
    && JobFind(js, pid).None?
    && st.StoppedBy? && st.signal == SIGTSTP
    && fg.Launched? && ProcessFind(fg.job, pid).Some?
  }

  /**
    Job `j` after report `st` for its process `m`: the process is recorded as
    stopped or done, and a SIGTSTP stop counts as already told about.
   */
  function MarkedJob(j: Job, m: nat, st: WaitStatus): Job
    requires m < |j.procs|
  {
    j.(procs := j.procs[m := Record(j.procs[m], st)],
       notified := j.notified || (st.StoppedBy? && st.signal == SIGTSTP))
  }

  /** The table after one report, and whether `mark_process_status` returns 1. */
  datatype Marked = Marked(t: Table, marked: bool)

  /**
    `mark_process_status` on a table. A report for a process of a tracked job
    is recorded in the first such job, and a stop makes that job the most
    recent one. A SIGTSTP stop of a process of the job just launched in the
    foreground adds that job to the table as the most recent and tracked
    foreground job. Only the first kind of report counts as marked.
   */
  function Mark(t: Table, e: Event): (r: Marked)
    ensures r.marked <==> e.pid > 0 && JobFind(t.jobs, e.pid).Some?
    ensures !r.marked && !AdoptsForeground(t.jobs, t.fg, e.pid, e.status) ==> r.t == t
  {
    if e.pid <= 0 then Marked(t, false)
    else
      match JobFind(t.jobs, e.pid)
      case Some(k) =>
        var j := t.jobs[k];
        Marked(t.(jobs := t.jobs[k := MarkedJob(j, ProcessFind(j, e.pid).value, e.status)],
                  jobRecent := if e.status.StoppedBy? then j.num else t.jobRecent), true)
      case None =>
        if AdoptsForeground(t.jobs, t.fg, e.pid, e.status) then
          var n := t.jobNum + 1;
          var j := t.fg.job.(num := n);
          Marked(Table(t.jobs + [MarkedJob(j, ProcessFind(j, e.pid).value, e.status)], n, n, Tracked(n)), false)
        else
          Marked(t, false)
  }

  /**
    A report keeps the table consistent. Unless a job was just launched in
    the foreground, no job joins or leaves the table and `job_num` and
    `job_fg` stay; otherwise `job_fg` stays or becomes a tracked job.
   */
  lemma MarkKeeps(t: Table, e: Event)
    requires Consistent(t)
    ensures Consistent(Mark(t, e).t)
    ensures !t.fg.Launched? ==>
      SameNums(Mark(t, e).t.jobs, t.jobs) && Mark(t, e).t.jobNum == t.jobNum && Mark(t, e).t.fg == t.fg
    ensures t.fg.Launched? ==> Mark(t, e).t.fg == t.fg || Mark(t, e).t.fg.Tracked?
  {
    if e.pid > 0 {
      match JobFind(t.jobs, e.pid)
      case Some(k) =>
        var j := t.jobs[k];
        var j' := MarkedJob(j, ProcessFind(j, e.pid).value, e.status);
        SameNumbers(t.jobs, k, j');
        assert t.jobs[k := j'][k].num == j.num;
      case None =>
        if AdoptsForeground(t.jobs, t.fg, e.pid, e.status) {
          var n := t.jobNum + 1;
          var j := t.fg.job.(num := n);
          AppendKeepsNumbering(t.jobs, t.fg.job);
          var js := t.jobs + [j];
          SameNumbers(js, |t.jobs|, MarkedJob(j, ProcessFind(j, e.pid).value, e.status));
          assert js[|t.jobs| := MarkedJob(j, ProcessFind(j, e.pid).value, e.status)]
              == t.jobs + [MarkedJob(j, ProcessFind(j, e.pid).value, e.status)];
          assert Mark(t, e).t.jobs[|t.jobs|].num == n;
        }
    }
  }

  // ---------------------------------------------------------------------
  // update_status and wait_for_job

  /**
    Whether `job_fg` has no running process: the condition `job_is_stopped(j)`
    that ends the loop of `wait_for_job`. A job launched in the foreground
    is its own record; a tracked one is looked up by number.
   */
  function ForegroundStopped(t: Table): bool
  {
    match t.fg
    case NoJob => true
    case Launched(job) => JobIsStopped(job)
    case Tracked(n) =>
      match FindNum(t.jobs, n, 0)
      case Some(k) => JobIsStopped(t.jobs[k])
      case None => true
  }

  /**
    In a consistent table the foreground job is stopped exactly when none of
    its processes is running.
   */
  lemma ForegroundStoppedMeans(t: Table)
    requires Consistent(t) && !t.fg.NoJob?
    ensures t.fg.Launched? ==>
      (ForegroundStopped(t) <==> forall i :: 0 <= i < |t.fg.job.procs| ==> t.fg.job.procs[i].status != Running)
    ensures t.fg.Tracked? ==>
      (ForegroundStopped(t) <==>
         forall k, i :: 0 <= k < |t.jobs| && t.jobs[k].num == t.fg.num && 0 <= i < |t.jobs[k].procs| ==>
           t.jobs[k].procs[i].status != Running)
  {
    if t.fg.Tracked? {
      var k0 := FindNum(t.jobs, t.fg.num, 0).value;
      forall k | 0 <= k < |t.jobs| && t.jobs[k].num == t.fg.num
        ensures k == k0
      {
        NumbersIdentifyJobs(t.jobs, k, k0);
      }
    }
  }

  /**
    Whether a drain loop goes on after report `e`: the report was marked and,
    when `waiting` for the foreground job, that job still has a running process.
   */
  function GoesOn(t: Table, e: Event, waiting: bool): bool
  {
    var m := Mark(t, e);
    m.marked && !(waiting && ForegroundStopped(m.t))
  }

  /** The table after a drain loop, and how many reports it consumed. */
  datatype Drained = Drained(t: Table, used: nat)

  /**
    The loop of `update_status` (`waiting` false) or `wait_for_job`
    (`waiting` true): apply the next report, and go on while `GoesOn` says so
    and reports are left. An exhausted sequence stands for `waitpid` having
    nothing more to report, which `mark_process_status` does not mark.
   */
  function Drain(t: Table, events: seq<Event>, waiting: bool): (r: Drained)
    ensures r.used <= |events| && (r.used == 0 <==> events == [])
    decreases |events|
  {
    if events == [] then Drained(t, 0)
    else if GoesOn(t, events[0], waiting) then
      var rest := Drain(Mark(t, events[0]).t, events[1..], waiting);
      Drained(rest.t, rest.used + 1)
    else
      Drained(Mark(t, events[0]).t, 1)
  }

  /** The table after applying every report of `events` in turn, whatever each returns. */
  function Fold(t: Table, events: seq<Event>): Table
    decreases |events|
  {
    if events == [] then t else Fold(Mark(t, events[0]).t, events[1..])
  }

  /** Every report of `events`, applied in turn, lets the loop go on. */
  predicate AllGoOn(t: Table, events: seq<Event>, waiting: bool)
    decreases |events|
  {
    events == [] || (GoesOn(t, events[0], waiting) && AllGoOn(Mark(t, events[0]).t, events[1..], waiting))
  }

  /**
    A drain applies exactly the reports it consumed, in order; each of them
    but the last let the loop go on; it stops early only at a report that
    does not; and it consumes every report when each one lets it go on.
   */
  lemma DrainStopsAtFirst(t: Table, events: seq<Event>, waiting: bool)
    ensures var r := Drain(t, events, waiting);
      && r.t == Fold(t, events[..r.used])
      && (r.used > 0 ==> AllGoOn(t, events[..r.used - 1], waiting))
      && (r.used < |events| ==> !GoesOn(Fold(t, events[..r.used - 1]), events[r.used - 1], waiting))
      && (AllGoOn(t, events, waiting) ==> r.used == |events|)
  {
    DrainApplies(t, events, waiting);
    DrainGoesOnBefore(t, events, waiting);
    DrainConsumesAll(t, events, waiting);
  }

  /** The table after a drain is the fold of the reports it consumed. */
  lemma {:induction false} DrainApplies(t: Table, events: seq<Event>, waiting: bool)
    ensures Drain(t, events, waiting).t == Fold(t, events[..Drain(t, events, waiting).used])
    decreases |events|
  {
    if events == [] {
      assert events[..0] == [];
    } else if GoesOn(t, events[0], waiting) {
      var r := Drain(t, events, waiting);
      var tail := events[1..];
      var rest := Drain(Mark(t, events[0]).t, tail, waiting);
      DrainApplies(Mark(t, events[0]).t, tail, waiting);
      assert events[..r.used][1..] == tail[..rest.used];
    } else {
      assert events[..1][1..] == [];
    }
  }

  /** Every report a drain consumed before its last let it go on, and it stops early only at one that does not. */
  lemma DrainGoesOnBefore(t: Table, events: seq<Event>, waiting: bool)
    ensures var r := Drain(t, events, waiting);
      && (r.used > 0 ==> AllGoOn(t, events[..r.used - 1], waiting))
      && (r.used < |events| ==> !GoesOn(Fold(t, events[..r.used - 1]), events[r.used - 1], waiting))
  {
    DrainPrefixGoesOn(t, events, waiting);
    DrainStopsEarly(t, events, waiting);
  }

  /** Every report a drain consumed before its last let it go on. */
  lemma {:induction false} DrainPrefixGoesOn(t: Table, events: seq<Event>, waiting: bool)
    ensures var r := Drain(t, events, waiting);
      r.used > 0 ==> AllGoOn(t, events[..r.used - 1], waiting)
    decreases |events|
  {
    if events != [] {
      var r := Drain(t, events, waiting);
      if GoesOn(t, events[0], waiting) {
        var tail := events[1..];
        var rest := Drain(Mark(t, events[0]).t, tail, waiting);
        DrainPrefixGoesOn(Mark(t, events[0]).t, tail, waiting);
        assert events[..r.used - 1] == events[..rest.used];
        if rest.used > 0 {
          assert events[..rest.used][1..] == tail[..rest.used - 1];
        } else {
          assert events[..rest.used] == [];
        }
      } else {
        assert events[..0] == [];
      }
    }
  }

  /** A drain that stops before the end stops at a report that does not let it go on. */
  lemma {:induction false} DrainStopsEarly(t: Table, events: seq<Event>, waiting: bool)
    ensures var r := Drain(t, events, waiting);
      r.used < |events| ==> !GoesOn(Fold(t, events[..r.used - 1]), events[r.used - 1], waiting)
    decreases |events|
  {
    if events != [] {
      var r := Drain(t, events, waiting);
      if GoesOn(t, events[0], waiting) {
        var tail := events[1..];
        var rest := Drain(Mark(t, events[0]).t, tail, waiting);
        DrainStopsEarly(Mark(t, events[0]).t, tail, waiting);
        if rest.used < |tail| {
          assert events[..r.used - 1][1..] == tail[..rest.used - 1];
          assert events[r.used - 1] == tail[rest.used - 1];
        }
      } else {
        assert events[..0] == [];
      }
    }
  }

  /** A drain consumes every report when each one lets it go on. */
  lemma {:induction false} DrainConsumesAll(t: Table, events: seq<Event>, waiting: bool)
    ensures AllGoOn(t, events, waiting) ==> Drain(t, events, waiting).used == |events|
    decreases |events|
  {
    if events != [] {
      DrainConsumesAll(Mark(t, events[0]).t, events[1..], waiting);
    }
  }

  /**
    A drain keeps the table consistent. Unless a job was just launched in the
    foreground, no job joins or leaves and `job_num` and `job_fg` stay;
    otherwise `job_fg` stays or becomes a tracked job.
   */
  lemma {:induction false} DrainKeeps(t: Table, events: seq<Event>, waiting: bool)
    requires Consistent(t)
    ensures Consistent(Drain(t, events, waiting).t)
    ensures !t.fg.Launched? ==>
      && SameNums(Drain(t, events, waiting).t.jobs, t.jobs)
      && Drain(t, events, waiting).t.jobNum == t.jobNum && Drain(t, events, waiting).t.fg == t.fg
    ensures t.fg.Launched? ==> Drain(t, events, waiting).t.fg == t.fg || Drain(t, events, waiting).t.fg.Tracked?
    decreases |events|
  {
    if events != [] {
      MarkKeeps(t, events[0]);
      var m := Mark(t, events[0]).t;
      if GoesOn(t, events[0], waiting) {
        DrainKeeps(m, events[1..], waiting);
      }
    }
  }

  /** Without a job just launched in the foreground, a drain keeps the length of the list and `job_fg`. */
  lemma {:induction false} DrainSize(t: Table, events: seq<Event>, waiting: bool)
    requires !t.fg.Launched?
    ensures |Drain(t, events, waiting).t.jobs| == |t.jobs| && Drain(t, events, waiting).t.fg == t.fg
    decreases |events|
  {
    if events != [] && GoesOn(t, events[0], waiting) {
      DrainSize(Mark(t, events[0]).t, events[1..], waiting);
    }
  }

  /** Job `k` resumed by `mark_job_as_running`. */
  function ResumeAt(t: Table, k: nat): Table
    requires k < |t.jobs|
  {
    t.(jobs := t.jobs[k := Resumed(t.jobs[k])])
  }

  /** Resuming a job keeps the table consistent and every job number. */
  lemma ResumeKeeps(t: Table, k: nat)
    requires Consistent(t) && k < |t.jobs|
    ensures Consistent(ResumeAt(t, k)) && SameNums(ResumeAt(t, k).jobs, t.jobs)
    ensures ResumeAt(t, k).jobs[k].num == t.jobs[k].num
  {
    SameNumbers(t.jobs, k, Resumed(t.jobs[k]));
  }

  // ---------------------------------------------------------------------
  // job_notify

  /**
    The table after the notification pass of `job_notify`: done jobs are
    unlinked and the others acknowledged (`Reap`); `job_num` is the number of
    the new last job; `job_recent` and a tracked `job_fg` that named a removed
    job become `job_num` and nothing. Every job left is settled.
   */
  function Pass(t: Table): (r: Table)
    ensures forall k :: 0 <= k < |r.jobs| ==> Settled(r.jobs[k])
  {
    ReapSettles(t.jobs);
    var kept := Reap(t.jobs);
    Table(kept, LastNum(kept),
          if RemovesNum(t.jobs, t.jobRecent) then LastNum(kept) else t.jobRecent,
          if t.fg.Tracked? && RemovesNum(t.jobs, t.fg.num) then NoJob else t.fg)
  }

  /** The pass keeps the table consistent. */
  lemma PassKeeps(t: Table)
    requires Consistent(t)
    ensures Consistent(Pass(t))
  {
    ReapKeepsNumbering(t.jobs);
    ReapTracks(t.jobs, t.jobRecent);
    RemovesNumWitness(t.jobs, t.jobRecent);
    if t.fg.Tracked? {
      ReapTracks(t.jobs, t.fg.num);
      RemovesNumWitness(t.jobs, t.fg.num);
    }
  }

  // ---------------------------------------------------------------------
  // do_fg

  /** The table after the walk of `do_fg`, the lines it echoed, and the reports it consumed. */
  datatype Walked = Walked(t: Table, out: seq<Line>, used: nat)

  /**
    The walk of `do_fg` from job `i` on. A job that, when reached, has the
    number `job_recent` and is not done has its command line echoed; it is
    resumed, becomes the tracked `job_fg` and is waited for on the reports
    left. Any other job is passed over.
   */
  function FgWalk(t: Table, i: nat, events: seq<Event>): (w: Walked)
    ensures w.used <= |events|
    decreases |t.jobs| - i
  {
    if i >= |t.jobs| then Walked(t, [], 0)
    else if t.jobs[i].num == t.jobRecent && !JobIsDone(t.jobs[i]) then
      var s := ResumeAt(t, i).(fg := Tracked(t.jobRecent));
      DrainSize(s, events, true);
      var d := Drain(s, events, true);
      var rest := FgWalk(d.t, i + 1, events[d.used..]);
      Walked(rest.t, [Echo(t.jobs[i].cmdline)] + rest.out, d.used + rest.used)
    else
      FgWalk(t, i + 1, events)
  }

  /**
    The walk keeps the table consistent and every job number. Every line it
    prints is an echo; with none printed nothing changed, and after one the
    foreground job is a tracked job.
   */
  lemma {:induction false} FgWalkKeeps(t: Table, i: nat, events: seq<Event>)
    requires Consistent(t)
    ensures var w := FgWalk(t, i, events);
      && Consistent(w.t) && SameNums(w.t.jobs, t.jobs) && w.t.jobNum == t.jobNum
      && (forall n :: 0 <= n < |w.out| ==> w.out[n].Echo?)
      && (w.out == [] ==> w.t == t && w.used == 0)
      && (w.out != [] ==> w.t.fg.Tracked?)
    decreases |t.jobs| - i
  {
    if i < |t.jobs| {
      FgWalkAt(t, i, events);
      if t.jobs[i].num == t.jobRecent && !JobIsDone(t.jobs[i]) {
        HandOffKeeps(t, i, events);
        var d := Drain(ResumeAt(t, i).(fg := Tracked(t.jobRecent)), events, true);
        FgWalkKeeps(d.t, i + 1, events[d.used..]);
        var next := FgWalk(d.t, i + 1, events[d.used..]);
        var w := Walked(next.t, [Echo(t.jobs[i].cmdline)] + next.out, d.used + next.used);
        forall n | 0 <= n < |w.out|
          ensures w.out[n].Echo?
        {
          if n > 0 {
            assert w.out[n] == next.out[n - 1];
          }
        }
      } else {
        FgWalkKeeps(t, i + 1, events);
      }
    }
  }

  /**
    One step of the walk at job `i`: the job brought to the foreground is
    echoed before the rest of the walk, which goes on from the table its
    wait leaves; any other job is passed over.
   */
  lemma FgWalkAt(t: Table, i: nat, events: seq<Event>)
    requires i < |t.jobs|
    ensures t.jobs[i].num == t.jobRecent && !JobIsDone(t.jobs[i]) ==>
      var d := Drain(ResumeAt(t, i).(fg := Tracked(t.jobRecent)), events, true);
      var next := FgWalk(d.t, i + 1, events[d.used..]);
      FgWalk(t, i, events) == Walked(next.t, [Echo(t.jobs[i].cmdline)] + next.out, d.used + next.used)
    ensures !(t.jobs[i].num == t.jobRecent && !JobIsDone(t.jobs[i])) ==> FgWalk(t, i, events) == FgWalk(t, i + 1, events)
  {
  }

  /**
    Handing job `i`, the most recent job, to the foreground and waiting for
    it keeps the table consistent, every job number and `job_num`, and leaves
    that job as the tracked `job_fg`; with no reports the table is merely
    the one with the job resumed.
   */
  lemma HandOffKeeps(t: Table, i: nat, events: seq<Event>)
    requires Consistent(t) && i < |t.jobs| && t.jobs[i].num == t.jobRecent
    ensures var s := ResumeAt(t, i).(fg := Tracked(t.jobRecent));
      var d := Drain(s, events, true);
      && Consistent(s) && Consistent(d.t) && SameNums(d.t.jobs, t.jobs) && d.t.jobNum == t.jobNum
      && d.t.fg == Tracked(t.jobRecent) && (events == [] ==> d == Drained(s, 0))
  {
    var s := ResumeAt(t, i).(fg := Tracked(t.jobRecent));
    ResumeKeeps(t, i);
    assert Tracks(s.jobs, t.jobRecent) by { assert s.jobs[i].num == t.jobRecent; }
    DrainKeeps(s, events, true);
  }

  /** Jobs from `i` on that are not the most recent job, or are done, are passed over. */
  lemma {:induction false} FgWalkPassesOver(t: Table, i: nat, events: seq<Event>)
    requires Consistent(t)
    requires forall k :: i <= k < |t.jobs| ==> t.jobs[k].num != t.jobRecent || JobIsDone(t.jobs[k])
    ensures FgWalk(t, i, events) == Walked(t, [], 0)
    decreases |t.jobs| - i
  {
    if i < |t.jobs| {
      FgWalkPassesOver(t, i + 1, events);
    }
  }

  /** The walk passes over the jobs before job `k` when none of them is the most recent job. */
  lemma {:induction false} FgWalkSkips(t: Table, i: nat, k: nat, events: seq<Event>)
    requires Consistent(t) && i <= k <= |t.jobs|
    requires forall n :: i <= n < k ==> t.jobs[n].num != t.jobRecent
    ensures FgWalk(t, i, events) == FgWalk(t, k, events)
    decreases k - i
  {
    if i < k {
      FgWalkSkips(t, i + 1, k, events);
    }
  }

  /**
    `do_fg` on a table whose most recent job is job `k`: if that job is done,
    nothing happens. Otherwise its command line is the first line echoed and
    the walk ends with a tracked foreground job; with no reports at all, it
    is merely resumed and made the tracked foreground job.
   */
  lemma FgWalkFirst(t: Table, events: seq<Event>)
    requires Consistent(t) && t.jobRecent != 0
    ensures FindNum(t.jobs, t.jobRecent, 0).Some?
    ensures var k := FindNum(t.jobs, t.jobRecent, 0).value;
      var w := FgWalk(t, 0, events);
      if JobIsDone(t.jobs[k]) then w == Walked(t, [], 0)
      else
        && |w.out| > 0 && w.out[0] == Echo(t.jobs[k].cmdline) && w.t.fg.Tracked?
        && (events == [] ==> w == Walked(ResumeAt(t, k).(fg := Tracked(t.jobRecent)), [Echo(t.jobs[k].cmdline)], 0))
  {
    var k := FindNum(t.jobs, t.jobRecent, 0).value;
    FgWalkSkips(t, 0, k, events);
    forall n | k < n < |t.jobs|
      ensures t.jobs[n].num != t.jobRecent
    {
      assert t.jobs[k].num < t.jobs[n].num;
    }
    FgWalkAt(t, k, events);
    if JobIsDone(t.jobs[k]) {
      FgWalkPassesOver(t, k + 1, events);
    } else {
      FgWalkFromRecent(t, k, events);
    }
  }

  /** The walk at the most recent job `k`, when it is not done and no later job has its number. */
  lemma FgWalkFromRecent(t: Table, k: nat, events: seq<Event>)
    requires Consistent(t) && k < |t.jobs| && t.jobs[k].num == t.jobRecent && !JobIsDone(t.jobs[k])
    requires forall n :: k < n < |t.jobs| ==> t.jobs[n].num != t.jobRecent
    ensures var w := FgWalk(t, k, events);
      && |w.out| > 0 && w.out[0] == Echo(t.jobs[k].cmdline) && w.t.fg.Tracked?
      && (events == [] ==> w == Walked(ResumeAt(t, k).(fg := Tracked(t.jobRecent)), [Echo(t.jobs[k].cmdline)], 0))
  {
    FgWalkAt(t, k, events);
    HandOffKeeps(t, k, events);
    var s := ResumeAt(t, k).(fg := Tracked(t.jobRecent));
    var d := Drain(s, events, true);
    FgWalkKeeps(d.t, k + 1, events[d.used..]);
    if events == [] {
      assert events[0..] == [];
      FgWalkPassesOver(s, k + 1, []);
    }
  }
}
