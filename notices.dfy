/**
  The lines the job-control code of yash.c prints, kept as structured values
  (`Line`) with `Render` giving the exact text `printf` writes (without the
  newline). Also the specification of what one pass of `job_notify` prints
  (`Notices`) and of the `jobs` listing (`Listing`).
 */
module Printing {
  import opened Jobs

  datatype Line =
    | Notice(num: int, current: bool, status: Status, cmdline: string)  // print_notify
    | Placed(num: int, pgid: int)                                       // background placement
    | Echo(cmdline: string)                                             // fg / bg echo
    | NoSuchJob(builtin: string)                                        // fg / bg without a job

  // ---------------------------------------------------------------------
  // Decimal numbers, as %d prints them

  function Digit(d: nat): char
    requires d < 10
  {
    "0123456789"[d]
  }

  function NatToString(n: nat): (s: string)
    ensures |s| >= 1
    ensures forall i :: 0 <= i < |s| ==> '0' <= s[i] <= '9'
    decreases n
  {
    if n < 10 then [Digit(n)] else NatToString(n / 10) + [Digit(n % 10)]
  }

  /** The value of a string of decimal digits. */
  function DigitsValue(s: string): nat
    requires forall i :: 0 <= i < |s| ==> '0' <= s[i] <= '9'
    decreases |s|
  {
    if s == [] then 0 else 10 * DigitsValue(s[..|s| - 1]) + (s[|s| - 1] - '0') as nat
  }

  /** Reading back what `NatToString` wrote gives the number: the printed job number is unambiguous. */
  lemma {:induction false} NatToStringRoundTrip(n: nat)
    ensures DigitsValue(NatToString(n)) == n
    decreases n
  {
    var s := NatToString(n);
    if n >= 10 {
      NatToStringRoundTrip(n / 10);
      assert s[..|s| - 1] == NatToString(n / 10);
    }
  }

  function IntToString(i: int): string
  {
    if i < 0 then "-" + NatToString(-i) else NatToString(i)
  }

  function StatusWord(s: Status): string
  {
    match s
    case Running => "Running"
    case Stopped => "Stopped"
    case Done => "Done"
  }

  /** Where the parts of a notice sit in its text. */
  lemma NoticeLayout(digits: string, marker: string, middle: string, cmdline: string)
    requires |marker| == 1
    ensures var text := "[" + digits + "]" + marker + middle + cmdline;
      && |digits| + 2 < |text| && text[0] == '[' && text[|digits| + 1] == ']'
      && text[1..|digits| + 1] == digits && text[|digits| + 2] == marker[0]
      && |cmdline| <= |text| && text[|text| - |cmdline|..] == cmdline
  {
    var text := "[" + digits + "]" + marker + middle + cmdline;
    assert text[1..|digits| + 1] == digits;
    assert text[|text| - |cmdline|..] == cmdline;
  }

  /**
    The text printed for a line. A notice starts with its job number in
    decimal between brackets, then the `+` or `-` marker, and ends with the
    command line.
   */
  function Render(l: Line): (text: string)
    ensures l.Notice? && l.num >= 0 ==>
      var at := |NatToString(l.num)| + 2;
      && at < |text| && text[0] == '[' && text[at - 1] == ']' && text[1..at - 1] == NatToString(l.num)
      && text[at] == (if l.current then '+' else '-')
      && |l.cmdline| <= |text| && text[|text| - |l.cmdline|..] == l.cmdline
  {
    match l
    case Notice(num, current, status, cmdline) =>
      var digits := IntToString(num);
      var marker := if current then "+" else "-";
      var middle := "   " + StatusWord(status) + "  ";
      NoticeLayout(digits, marker, middle, cmdline);
      "[" + digits + "]" + marker + middle + cmdline
    case Placed(num, pgid) => "[" + IntToString(num) + "]   " + IntToString(pgid)
    case Echo(cmdline) => cmdline
    case NoSuchJob(builtin) => "-yash: " + builtin + ": current: no such job"
  }

  // ---------------------------------------------------------------------
  // print_notify

  /** `print_notify(j, status)` while `job_recent` is `recent`. */
  function NoticeOf(j: Job, recent: int, status: Status): Line
  {
    Notice(j.num, j.num == recent, status, j.cmdline)
  }

  /**
    The line `print_notify` prints carries the job's number, which reads back
    from its digits, and ends with the job's command line; the character after
    the closing bracket is `+` exactly when the job is the most recent one,
    `-` otherwise.
   */
  lemma NoticeMarker(j: Job, recent: int, status: Status)
    requires j.num >= 0
    ensures var text := Render(NoticeOf(j, recent, status));
      var at := |NatToString(j.num)| + 2;
      && at < |text| && text[0] == '[' && text[at - 1] == ']'
      && (forall i :: 1 <= i < at - 1 ==> '0' <= text[i] <= '9') && DigitsValue(text[1..at - 1]) == j.num
      && (text[at] == '+' <==> j.num == recent) && (text[at] == '+' || text[at] == '-')
      && text[|text| - |j.cmdline|..] == j.cmdline
  {
    var text := Render(NoticeOf(j, recent, status));
    var at := |NatToString(j.num)| + 2;
    NatToStringRoundTrip(j.num);
    assert forall i :: 1 <= i < at - 1 ==> text[i] == NatToString(j.num)[i - 1];
  }

  // ---------------------------------------------------------------------
  // What one pass of job_notify prints

  /** Some job of `js` with number `n` is done (and so is removed by the pass). */
  predicate RemovesNum(js: seq<Job>, n: int)
    decreases |js|
  {
    js != [] && (RemovesNum(js[..|js| - 1], n) || (js[|js| - 1].num == n && JobIsDone(js[|js| - 1])))
  }

  /** `RemovesNum` holds exactly when some job of `js` has number `n` and is done. */
  lemma {:induction false} RemovesNumWitness(js: seq<Job>, n: int)
    ensures RemovesNum(js, n) <==> exists k :: 0 <= k < |js| && js[k].num == n && JobIsDone(js[k])
    decreases |js|
  {
    if js != [] {
      var init := js[..|js| - 1];
      RemovesNumWitness(init, n);
      if RemovesNum(init, n) {
        var k :| 0 <= k < |init| && init[k].num == n && JobIsDone(init[k]);
        assert js[k] == init[k];
      }
      if exists k :: 0 <= k < |js| && js[k].num == n && JobIsDone(js[k]) {
        var k :| 0 <= k < |js| && js[k].num == n && JobIsDone(js[k]);
        if k < |init| {
          assert init[k] == js[k];
        }
      }
    }
  }

  /**
    The value of `job_recent` when the pass reaches the job after `prefix`:
    once the job it named has been removed it is `job_num`, which until the
    pass ends is the number `last` of the last job of the table.
   */
  function RecentDuring(prefix: seq<Job>, recent: int, last: int): int
  {
    if RemovesNum(prefix, recent) then last else recent
  }

  /**
    What the pass prints for one job: "Done" for a done job (unless printing
    is skipped or the job is the foreground job `fgNum`), "Stopped" for a
    stopped job not told about yet (unless skipped), nothing otherwise.
   */
  function NoticeFor(j: Job, recent: int, skip: bool, fgNum: int): seq<Line>
  {
    if JobIsDone(j) then
      (if !skip && j.num != fgNum then [NoticeOf(j, recent, Done)] else [])
    else if JobIsStopped(j) && !j.notified then
      (if !skip then [NoticeOf(j, recent, Stopped)] else [])
    else []
  }

  /** The lines one pass of `job_notify` prints for the jobs `js`, in order. */
  function Notices(js: seq<Job>, recent: int, last: int, skip: bool, fgNum: int): seq<Line>
    decreases |js|
  {
    if js == [] then []
    else
      var init := js[..|js| - 1];
      Notices(init, recent, last, skip, fgNum) + NoticeFor(js[|js| - 1], RecentDuring(init, recent, last), skip, fgNum)
  }

  /** With `skip_notify` set the pass prints nothing. */
  lemma {:induction false} NoticesSkipped(js: seq<Job>, recent: int, last: int, fgNum: int)
    ensures Notices(js, recent, last, true, fgNum) == []
    decreases |js|
  {
    if js != [] {
      NoticesSkipped(js[..|js| - 1], recent, last, fgNum);
    }
  }

  /**
    Every line of a pass is a "Done" or "Stopped" notice, at most one per job;
    a done foreground job is never announced, and a "Stopped" line is printed
    only for a job that was not told about before.
   */
  lemma {:induction false} NoticesShape(js: seq<Job>, recent: int, last: int, skip: bool, fgNum: int)
    ensures |Notices(js, recent, last, skip, fgNum)| <= |js|
    ensures forall l :: l in Notices(js, recent, last, skip, fgNum) ==>
      l.Notice? && l.status != Running && (l.status == Done ==> l.num != fgNum)
    ensures forall l :: l in Notices(js, recent, last, skip, fgNum) && l.status == Stopped ==>
      exists k :: 0 <= k < |js| && js[k].num == l.num && JobIsStopped(js[k]) && !JobIsDone(js[k]) && !js[k].notified
    decreases |js|
  {
    if js != [] {
      var init := js[..|js| - 1];
      NoticesShape(init, recent, last, skip, fgNum);
      forall l | l in Notices(js, recent, last, skip, fgNum) && l.status == Stopped
        ensures exists k :: 0 <= k < |js| && js[k].num == l.num && JobIsStopped(js[k]) && !JobIsDone(js[k]) && !js[k].notified
      {
        if l in Notices(init, recent, last, skip, fgNum) {
          var k :| 0 <= k < |init| && init[k].num == l.num && JobIsStopped(init[k]) && !JobIsDone(init[k]) && !init[k].notified;
          assert js[k] == init[k];
        } else {
          assert js[|js| - 1].num == l.num;
        }
      }
    }
  }

  /**
    The converse of `NoticesShape`: unless printing is skipped, every done job
    other than the foreground job gets its "Done" line, and every stopped job
    not told about yet gets its "Stopped" line.
   */
  lemma {:induction false} NoticesComplete(js: seq<Job>, recent: int, last: int, skip: bool, fgNum: int)
    requires !skip
    ensures forall k :: 0 <= k < |js| && JobIsDone(js[k]) && js[k].num != fgNum ==>
      exists c :: Notice(js[k].num, c, Done, js[k].cmdline) in Notices(js, recent, last, skip, fgNum)
    ensures forall k :: 0 <= k < |js| && !JobIsDone(js[k]) && JobIsStopped(js[k]) && !js[k].notified ==>
      exists c :: Notice(js[k].num, c, Stopped, js[k].cmdline) in Notices(js, recent, last, skip, fgNum)
    decreases |js|
  {
    if js != [] {
      var init := js[..|js| - 1];
      var all := Notices(js, recent, last, skip, fgNum);
      var before := Notices(init, recent, last, skip, fgNum);
      NoticesComplete(init, recent, last, skip, fgNum);
      assert all == before + NoticeFor(js[|js| - 1], RecentDuring(init, recent, last), skip, fgNum);
      forall k | 0 <= k < |js| - 1
        ensures js[k] == init[k]
      {
      }
    }
  }

  /** Jobs that are not done and, when stopped, already told about produce no line. */
  lemma {:induction false} SettledJobsAreSilent(js: seq<Job>, recent: int, last: int, skip: bool, fgNum: int)
    requires forall i :: 0 <= i < |js| ==> Settled(js[i])
    ensures Notices(js, recent, last, skip, fgNum) == []
    decreases |js|
  {
    if js != [] {
      SettledJobsAreSilent(js[..|js| - 1], recent, last, skip, fgNum);
    }
  }

  /**
    A second pass right after the first, with no status change in between,
    prints nothing: each stop is announced at most once and each completion
    once.
   */
  lemma SecondPassIsSilent(js: seq<Job>, recent: int, last: int, skip: bool, fgNum: int)
    ensures Notices(Reap(js), recent, last, skip, fgNum) == []
  {
    ReapSettles(js);
    SettledJobsAreSilent(Reap(js), recent, last, skip, fgNum);
  }

  // ---------------------------------------------------------------------
  // do_jobs

  /** The status word `do_jobs` prints for a job. */
  function StatusOf(j: Job): Status
  {
    if JobIsDone(j) then Done else if JobIsStopped(j) then Stopped else Running
  }

  /** What `do_jobs` prints: one notice per tracked job, in table order. */
  function Listing(js: seq<Job>, recent: int): seq<Line>
  {
    seq(|js|, k requires 0 <= k < |js| => NoticeOf(js[k], recent, StatusOf(js[k])))
  }

  /**
    In a numbered table the listing marks at most one job with `+`, and
    exactly one, the job numbered `recent`, when that job is tracked.
   */
  lemma ListingMarksRecent(js: seq<Job>, recent: int)
    requires Numbered(js)
    ensures forall a, b :: 0 <= a < b < |js| ==> !(Listing(js, recent)[a].current && Listing(js, recent)[b].current)
    ensures Tracks(js, recent) ==> exists k :: 0 <= k < |js| && Listing(js, recent)[k].current
    ensures forall k :: 0 <= k < |js| ==> Listing(js, recent)[k].current == (js[k].num == recent)
  {
    if Tracks(js, recent) {
      var k :| 0 <= k < |js| && js[k].num == recent;
      assert Listing(js, recent)[k].current;
    }
  }
}
