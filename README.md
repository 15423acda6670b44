# yash job control and command-line parsing, in Dafny

yash is a small Unix shell written in C. Each input line is either a
built-in (`fg`, `bg`, `jobs`) or a command line. A command line is split
into tokens and parsed into a job: a pipeline of processes with optional
redirections and a trailing `&`. The shell keeps a singly linked table of
jobs, numbered in ascending order, with three globals:

- `job_num` is the number of the last job;
- `job_recent` is the job that `fg` and `bg` act on;
- `job_fg` is the job being waited for in the foreground.

Status reports from `waitpid` mark processes as stopped or done.
`job_notify` announces finished and stopped jobs and unlinks finished ones.
`fg` and `bg` resume the most recent job. A second tokenizer,
`tokenize_command` in parse.c, splits on spaces and newlines into a
growable pointer array.

The model has these modules:

- `Tokens` (tokens.dfy) gives the meaning of `strtok` over a whole string.
  `Split` is the list of maximal runs of non-delimiters. `Strtok` is one
  call. `StrtokAll` is the calling loop, proved to produce `Split`.
- `TokenArray` (token_array.dfy) is `tokenize_command`. It stores into an
  `array` that grows by `MaxTokens` entries.
- `Jobs` (jobs.dfy) holds processes, jobs and wait statuses as values.
  It also has:
  - the status predicates `job_is_done` and `job_is_stopped`;
  - the searches `job_find` and `process_find`;
  - the numbering invariant of the table;
  - `Reap`, the table after a notification pass.
- `Printing` (notices.dfy) models the lines the shell prints, as values
  with their exact text. It also specifies what a notification pass
  prints (`Notices`) and what `jobs` prints (`Listing`).
- `Reports` (reports.dfy) gives the meaning of the job table's updates as
  values over a `Table` (the list and the three globals):
  - `Mark` is one call of `mark_process_status`;
  - `Drain` is the loop of `update_status` or `wait_for_job`, which applies
    `Mark` to the reports until the loop's condition fails;
  - `Pass` is the loop of `job_notify`;
  - `FgWalk` is the loop of `do_fg`.
- `JobControl` (job_table.dfy) has the class `Shell`:
  - its fields are the job table and the globals, plus the printed lines;
  - its methods are the C functions that update them in place;
  - `Valid` is the invariant the comments of yash.c state;
  - each method is proved to leave the table that the matching function
    of `Reports` gives.
- `CommandLine` (command_line.dfy) is `parseInput` and `isOperator`.
  - `Lex` gives the meaning of the token list: the items, or the first
    error in scanning order.
  - `Stages` builds the processes.
  - `ParseInput` is the C loop, proved to agree with `Parse`.

Things outside the process are explicit inputs:

- Status reports from `waitpid` are a sequence of `Event`s. A drain loop
  stops at the first report it does not record. An exhausted sequence
  means that no more children have anything to report.
- Whether a file can be opened for reading is a parameter `readable`.
- Who owns the terminal is a ghost field.

## Model

| member | source | states |
|---|---|---|
| Tokens.Split | yash.c:147-148 | every token is non-empty and holds no delimiter |
| Tokens.Strtok | yash.c:147-148 | one `strtok` call: none iff only delimiters remain; otherwise the token starts after the leading delimiters, holds no delimiter and ends at a delimiter or the end, and the next call resumes just past that delimiter |
| Tokens.StrtokAll | yash.c:144-150 | repeated `strtok` calls collect exactly `Split(s, delims)` |
| Tokens.SplitCountsRuns | parse.c:27-45 | the number of tokens is the number of maximal runs of non-delimiters |
| Tokens.SplitKeepsText | parse.c:27-45 | the tokens joined together are the input without its delimiters |
| Tokens.OnlyDelimitersSplitEmpty | yash.c:147-149 | a string of delimiters only has no tokens |
| Tokens.KeptEmptyOnlyDelimiters | yash.c:147-149 | if nothing but delimiters is dropped, the string holds only delimiters |
| Tokens.TabIsKeptBySpacing | parse.c:25 | the delimiters of parse.c leave a tab inside a token; those of yash.c split on it |
| TokenArray.CapacityOfSteps | parse.c:33-36 | after `count` stores the array has room for `MaxTokens * (count / MaxTokens + 1)` entries |
| TokenArray.Grow | parse.c:36 | reallocation keeps the stored entries |
| TokenArray.TokenizeCommand | parse.c:9-48 | the stored tokens are `Split(command, " \n")` in order, their count is the number of runs, the array has the capacity of whole growth steps, and the NULL terminator follows them |
| Jobs.AllDoneMeans | yash.c:596-603 | the done-check holds iff every process is DONE |
| Jobs.NoneRunningMeans | yash.c:586-592 | the stopped-check holds iff no process is RUNNING |
| Jobs.JobIsDone | yash.c:595-603 | a job is done iff every one of its processes is DONE |
| Jobs.JobIsStopped | yash.c:585-592 | a job is stopped iff none of its processes is RUNNING |
| Jobs.DoneJobIsStopped | yash.c:586-603 | a done job counts as stopped; a stopped job that is not done has a STOPPED process |
| Jobs.ProcessFind | yash.c:670-677 | the first process with the pid, or none has it |
| Jobs.JobFind | yash.c:659-668 | the first job that has a process with the pid; none iff no job has one |
| Jobs.FindNum | yash.c:531-532 | the first job with the number: every job before it has another number; none means no job has it |
| Jobs.AppendKeepsNumbering | yash.c:640-645 | appending with number `job_num + 1` keeps numbers ascending and makes it the last number |
| Jobs.NumbersIdentifyJobs | yash.c:640-645 | in an ascending table two positions hold the same number iff they are the same position |
| Jobs.ResumedJob | yash.c:565-572 | a resumed job has no STOPPED process, is not marked as told, and is done exactly when it was; one that had a stopped process is no longer stopped |
| Jobs.ReapRemovesExactlyDone | yash.c:465-500 | every job left after a pass was a job not done; every job not done is kept, marked as told |
| Jobs.ReapTracks | yash.c:465-500 | a number is tracked after a pass iff a job with that number was not done |
| Jobs.ReapKeepsNumbering | yash.c:465-500 | unlinking keeps numbers ascending and the last number does not grow |
| Jobs.ReapSettles | yash.c:465-500 | after a pass no job is done and every stopped job is marked as told |
| Jobs.ReapIdempotent | yash.c:465-500 | a second pass with no new reports changes nothing |
| Jobs.SettledSurvive | yash.c:465-500 | a table of settled jobs is left as it is |
| Printing.NatToString | yash.c:502-507 | `%d` of a natural number is a non-empty string of digits |
| Printing.NatToStringRoundTrip | yash.c:502-507 | the printed digits read back as the number |
| Printing.Render | yash.c:502-507 | a notice is printed as its job number in decimal between brackets, then `+` for the current job or `-`, and it ends with the command line |
| Printing.NoticeMarker | yash.c:502-507 | the notice shows `+` after the bracketed number iff the job is `job_recent`, otherwise `-` |
| Printing.RemovesNumWitness | yash.c:469-491 | a pass removes number `n` iff some job with number `n` is done |
| Printing.NoticesSkipped | yash.c:474 | with `skip_notify` a pass prints nothing |
| Printing.NoticesShape | yash.c:465-500 | at most one line per job; each is a Done or Stopped notice; a done foreground job is never announced; a Stopped line names a stopped job not yet told about |
| Printing.NoticesComplete | yash.c:471-496 | unless `skip_notify` is set, every done job other than `job_fg` gets its Done line and every stopped job not told about yet gets its Stopped line |
| Printing.SettledJobsAreSilent | yash.c:465-500 | settled jobs produce no notice |
| Printing.SecondPassIsSilent | yash.c:465-500 | a pass right after a pass prints nothing: each stop and each completion is announced once |
| Printing.ListingMarksRecent | yash.c:509-520 | `jobs` marks a job with `+` iff it is `job_recent`, so at most one, and exactly one when `job_recent` is tracked |
| Reports.Mark | yash.c:385-423 | one report is recorded iff its pid is positive and a tracked job has it; an unrecorded report changes nothing, unless it is the SIGTSTP stop of the job just launched in the foreground, which joins the table |
| Reports.MarkKeeps | yash.c:385-423 | a report keeps the table consistent; unless a job was just launched in the foreground, no job joins or leaves and `job_num` and `job_fg` stay |
| Reports.ForegroundStoppedMeans | yash.c:368 | the condition that ends `wait_for_job`: no process of the foreground job is RUNNING |
| Reports.Drain | yash.c:361-381 | the loop consumes at least one report iff there is one, and no more than there are |
| Reports.DrainStopsAtFirst | yash.c:365-368 | the table after the loop is every consumed report applied in order; each report before the last was recorded (and, in `wait_for_job`, left the foreground job unstopped); it stops early only at a report that fails that test; it consumes all reports when each passes |
| Reports.DrainApplies | yash.c:377-379 | the table after the loop is every consumed report applied in order |
| Reports.DrainGoesOnBefore | yash.c:365-368 | every consumed report before the last passed the loop's test, and the loop stops early only at one that failed it |
| Reports.DrainPrefixGoesOn | yash.c:377-379 | every consumed report before the last passed the loop's test |
| Reports.DrainStopsEarly | yash.c:365-368 | the loop stops before the end only at a report that failed its test |
| Reports.DrainConsumesAll | yash.c:377-379 | when every report passes the loop's test, the loop consumes them all |
| Reports.DrainKeeps | yash.c:361-381 | draining reports keeps the table consistent; with no job just launched, every job number, `job_num` and `job_fg` stay |
| Reports.DrainSize | yash.c:361-381 | with no job just launched, draining keeps the number of jobs and `job_fg` |
| Reports.ResumeKeeps | yash.c:565-572 | resuming a job keeps the table consistent and every job number |
| Reports.Pass | yash.c:465-500 | after the pass of `job_notify` every job is settled |
| Reports.PassKeeps | yash.c:465-500 | the pass keeps the table consistent: numbers ascending, `job_num` the last number, `job_recent` and `job_fg` tracked or cleared |
| Reports.HandOffKeeps | yash.c:537-539 | resuming the most recent job in the foreground and waiting for it keeps the table consistent and every job number, and leaves it the tracked `job_fg` |
| Reports.FgWalk | yash.c:531-542 | the walk of `do_fg` consumes no more reports than there are |
| Reports.FgWalkKeeps | yash.c:531-542 | the walk keeps the table consistent and every job number, echoes only command lines, changes nothing when it echoes nothing, and otherwise leaves a tracked `job_fg` |
| Reports.FgWalkPassesOver | yash.c:531-542 | when no remaining job is a most recent job that is not done, the walk does nothing |
| Reports.FgWalkSkips | yash.c:531-532 | the walk passes over jobs whose number is not `job_recent` |
| Reports.FgWalkFirst | yash.c:531-542 | a done most recent job: the walk does nothing. Otherwise its command line is echoed first and `job_fg` ends tracked; with no report, exactly that job is resumed as the tracked `job_fg` |
| Reports.FgWalkFromRecent | yash.c:537-540 | the walk at the most recent job, when it is not done, echoes its command line first |
| JobControl.Shell.constructor | yash.c:41-46 | an empty table, all globals zero or NULL, the shell owning the terminal |
| JobControl.Shell.JobAdd | yash.c:640-645 | the job is appended with number `job_num + 1`, which becomes `job_num`; the invariant is kept |
| JobControl.Shell.MarkProcessStatus | yash.c:385-423 | the new table and the result are `Mark` of the old table and the report. It returns true iff the pid is positive and some tracked job has it. It then records the report in the first such job; a stop makes that job `job_recent`, and a SIGTSTP stop marks it as told. A SIGTSTP stop of the job just launched in the foreground adds it to the table as the recent, tracked foreground job. Otherwise nothing changes |
| JobControl.Shell.RecordReport | yash.c:390-406 | exactly job `k` changes, as `MarkedJob` says; `job_recent` becomes its number on a stop |
| JobControl.Shell.AdoptForeground | yash.c:408-417 | the foreground job joins the table with the process stopped and marked as told, and becomes `job_recent` and the tracked foreground job |
| JobControl.Shell.UpdateStatus | yash.c:373-381 | the table and the number of reports consumed are `Drain` without waiting: reports are recorded until one is not or none remain; nothing is printed |
| JobControl.Shell.WaitForJob | yash.c:361-370 | the table and the number of reports consumed are `Drain` while waiting: reports are recorded until one is not or the foreground job has no running process; a tracked foreground job keeps every job number |
| JobControl.Shell.PutJobInBackground | yash.c:427-441 | a new job is appended, its `[n]   pgid` line is printed, and it becomes `job_recent` |
| JobControl.Shell.PutJobInForeground | yash.c:446-459 | the job becomes `job_fg` and the table is `Drain` of that table while waiting for it; the shell owns the terminal again afterwards |
| JobControl.Shell.MarkJobAsRunning | yash.c:565-572 | exactly job `k` becomes `Resumed`: its STOPPED processes become RUNNING and it is no longer marked as told |
| JobControl.Shell.ContinueJob | yash.c:575-582 | in the background: job `k` is resumed and becomes `job_recent`. In the foreground: the table is `Drain` of the table with the job resumed and made the tracked `job_fg`, and the shell gets the terminal back |
| JobControl.Shell.VisitJob | yash.c:469-498 | one loop step of `job_notify`: a done job is announced (except the foreground job) and unlinked, and `job_num`, `job_recent` and `job_fg` stop naming it; an untold stopped job is announced and marked |
| JobControl.Shell.NotifyPass | yash.c:465-500 | the table becomes `Reap` of the old one, the printed lines are `Notices`, `job_num` is the new last number, and `job_recent`/`job_fg` are reset exactly when their job was removed |
| JobControl.Shell.JobNotify | yash.c:465-500 | the table is `Pass` of the table `Drain` leaves, and the printed lines are the `Notices` of that drained table; afterwards every job is settled, and with `skip_notify` nothing is printed |
| JobControl.Shell.DoJobs | yash.c:509-520 | prints `Listing` of the table and changes nothing else |
| JobControl.Shell.ForegroundStep | yash.c:532-540 | a job that is `job_recent` and not done is echoed, and the table is `Drain` of the table with it resumed as the tracked `job_fg`; any other job changes nothing |
| JobControl.Shell.DoFg | yash.c:522-543 | with no job or no recent job, prints the fixed message. Otherwise the table, the printed lines and the reports consumed are those of `FgWalk`. A done recent job: nothing happens. Otherwise its command line is echoed first, the shell gets the terminal back, and with no further report exactly that job is resumed in the foreground |
| JobControl.Shell.DoBg | yash.c:545-562 | with no job or no recent job, prints the fixed message. A done recent job: nothing happens. Otherwise exactly that job is echoed and resumed, and the globals stay as they were |
| CommandLine.IsOperator | yash.c:627-631 | a token is an operator iff it is `|`, `&` or the redirection operator of one of the three streams |
| CommandLine.ProcessAdd | yash.c:633-638 | the process is appended at the end of the job's list and nothing else changes |
| CommandLine.ScanToken | yash.c:163-254 | one iteration of the parse loop: an error met is the error of the whole line; otherwise the loop state advances in step with `Lex` |
| CommandLine.ParseInput | yash.c:142-258 | the result is `Parse` of the line split on blanks and tabs |
| CommandLine.LexRoundTrip | yash.c:163-254 | spelling the parsed items out again gives back the tokens |
| CommandLine.LexShape | yash.c:163-254 | words are never operators, `&` only comes last, `|` never comes last, the file of every `<` is readable, and no more items than tokens |
| CommandLine.LexComplete | yash.c:163-254 | well-formed items, spelled out, scan back to themselves, so the four errors of the loop are its only failures |
| CommandLine.LexAccepts | yash.c:163-254 | scanning succeeds with some items iff they are well formed and spell out the tokens |
| CommandLine.SegmentsSplit | yash.c:165-183 | the segments hold no `|`, and joined with `|` between them they give back the items |
| CommandLine.SegmentsJoin | yash.c:165-183 | the segments joined with `|` between them give back the items |
| CommandLine.SegmentsHaveNoPipe | yash.c:165-183 | no segment holds a `|` |
| CommandLine.BuildMeans | yash.c:196-253 | a process built from a segment has the segment's words as its arguments, and each stream goes to its last redirected file or stays the shell's own |
| CommandLine.StagesBySegment | yash.c:165-253 | there is one process per segment, and process `i` is built from segment `i` alone |
| CommandLine.StagesCount | yash.c:165-183 | a pipeline has one process more than it has `|` operators |
| CommandLine.StagesKeepWords | yash.c:249-253 | the arguments of all processes, in order, are exactly the word tokens |
| CommandLine.BackgroundNeedsTrailingAmp | yash.c:185-194 | a job parsed as background has `&` as its last token |
| CommandLine.AmpAsFileName | yash.c:196-209 | an `&` after `>` is a file name: `a > &` is a foreground job whose output goes to the file `&` |
| CommandLine.LexPlainWords | yash.c:249-253 | tokens without operators are read as one word each |
| CommandLine.PlainCommand | yash.c:249-257 | a line without operators is a single foreground process whose arguments are its tokens |
| CommandLine.LexNeverEmptyLine | yash.c:163-254 | scanning tokens never reports an empty line |
| CommandLine.EmptyLineMeansBlank | yash.c:147-149 | the empty-line error happens iff the line holds only blanks and tabs |
| CommandLine.SixteenWordsOverflow | yash.c:159 | as allocated, sixteen words parse successfully, yet their arguments and terminator do not fit in the `command` buffer |
| CommandLine.StagesFitCommand | yash.c:174 | with at most `ARG_LIMIT` tokens, the arguments and terminator of every process fit in a buffer of `ARG_LIMIT + 1` pointers |

## Left out

- Signals, `setpgid`, `kill(SIGCONT)`, `tcsetpgrp` and `perror` have no
  model. Terminal ownership is a ghost field, changed only around a
  foreground wait. The message texts of `perror` are not kept, except
  through `ParseError`.
- `launch_job` is not modelled. It sets up pipes and forks one child per
  process. It exits the shell only when `pipe` or `fork` fails. Otherwise
  it hands the job to `put_job_in_background` or `put_job_in_foreground`,
  which are modelled. `launch_process`, `signal_init`, `sig_handler`,
  `main` and `processCmdline` are process-level glue and are not modelled
  either. The reading of a line
  (`fgets` with `LINE_LIMIT`) is outside the model.
- `job_free` releases memory, which is not modelled. As written, it also
  releases only the first process of a job. The model drops the whole job.
- Opening files is not modelled. Whether `<` can open its file is the
  parameter `readable`. `>` and `2>` keep the path, because in the source a
  failed open there is not checked.
- `waitpid` is called without `WCONTINUED`, so no "continued" report
  exists, and there is none in the model. Exit and signal codes are not
  distinguished beyond "done".
- JobControl.Shell.MarkProcessStatus: some source paths dereference NULL or
  corrupt the list. Two cases change nothing in the model:
  - a SIGTSTP stop of an unknown pid while `job_fg` is NULL, or while
    `job_fg` is already in the table;
  - a SIGTSTP stop of a pid that is not in `job_fg`.
- A `job_fg` that points at a freed job is modelled as cleared (`NoJob`)
  once the job is unlinked.
- CommandLine.ParseInput: `args` holds at most `ARG_LIMIT + 1` entries, and
  a line with more than 128 tokens overflows it. The model has no such
  bound.
- CommandLine.StagesFitCommand: it assumes at most `ARG_LIMIT` tokens for
  the same reason.
- TokenArray.TokenizeCommand: the C function stores the array into its own
  copy of the `tokens` parameter, so the caller never receives it. The
  model returns the array. The stray `printf("tokenize")` and the exit on
  allocation failure are not modelled.
- The size of a pointer is taken to be 8 bytes (LP64) for the finding below.

## Findings

| source | as written | input that shows it | evidently intended | confidence | as-written member | corrected member |
|---|---|---|---|---|---|---|
| yash.c:159 | `command` is allocated with `ARG_LIMIT+1` bytes (also at yash.c:174). That is room for only 16 pointers of 8 bytes. | the line `a a a a a a a a a a a a a a a a` (16 words): the NULL terminator is written to `command[16]`, past the 129 bytes | `(ARG_LIMIT+1) * sizeof(char *)` bytes, one pointer per possible token plus the terminator | high, not executed | CommandLine.SixteenWordsOverflow | CommandLine.StagesFitCommand |
