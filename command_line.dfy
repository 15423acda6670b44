/**
  `parseInput` of yash.c: a command line, split on blanks and tabs, becomes a
  job whose processes are the stages of a pipeline, each with its argument
  vector and its redirections, and which runs in the background when it ends
  with `&`.

  The specification reads the tokens in two steps. `Lex` turns them into items
  (a word, `|`, `&`, or a redirection operator with the token after it as its
  file), failing with the first error met from left to right; `Stages` cuts the
  items into processes at each `|`. `ParseInput` is the index loop of the C
  code, proved to compute `Parse`.

  Opening the files named by redirections is not modelled: whether a file can
  be opened for reading is the parameter `readable`, and a redirection is kept
  as the path it names.
 */
module CommandLine {
  import opened Wrappers
  import opened Tokens
  import opened Jobs

  /**
    `isOperator`: the five tokens that are not words, namely `|`, `&` and the
    redirection operators of the three streams; a redirection operator names
    the stream `StreamOf` gives it.
   */
  function IsOperator(t: string): (r: bool)
    ensures r <==> t == "|" || t == "&" || t in {OperatorOf(StdIn), OperatorOf(StdOut), OperatorOf(StdErr)}
    ensures r && t != "|" && t != "&" ==> OperatorOf(StreamOf(t)) == t
  {
    t == ">" || t == "<" || t == "2>" || t == "|" || t == "&"
  }

  datatype Stream = StdIn | StdOut | StdErr

  datatype Item = Word(w: string) | Pipe | Amp | Redirect(stream: Stream, file: string)

  /** Why `parseInput` returns 0. */
  datatype ParseError =
    | EmptyLine            // no token at all
    | NoArgAfterPipe       // `|` is the last token
    | AmpNotLast           // `&` is followed by another token
    | NoFilename           // a redirection operator is the last token
    | NoSuchFile(path: string)  // the file after `<` cannot be opened

  /** The stream a redirection operator (`<`, `>` or `2>`) applies to. */
  function StreamOf(op: string): Stream
  {
    if op == "<" then StdIn else if op == ">" then StdOut else StdErr
  }

  function OperatorOf(s: Stream): string
  {
    match s
    case StdIn => "<"
    case StdOut => ">"
    case StdErr => "2>"
  }

  /** `d` in front of a successful result; an error is passed on. */
  function Prepend(d: seq<Item>, r: Result<seq<Item>, ParseError>): Result<seq<Item>, ParseError>
  {
    match r
    case Ok(items) => Ok(d + items)
    case Err(e) => Err(e)
  }

  /**
    The items of the tokens `toks`, or the first error from the left. The token
    after a redirection operator is its file, whatever it is, even another
    operator; `&` is accepted only as the last token.
   */
  function Lex(toks: seq<string>, readable: string -> bool): Result<seq<Item>, ParseError>
    decreases |toks|
  {
    if toks == [] then Ok([])
    else if !IsOperator(toks[0]) then Prepend([Word(toks[0])], Lex(toks[1..], readable))
    else if toks[0] == "|" then
      if |toks| == 1 then Err(NoArgAfterPipe) else Prepend([Pipe], Lex(toks[1..], readable))
    else if toks[0] == "&" then
      if |toks| != 1 then Err(AmpNotLast) else Ok([Amp])
    else if |toks| == 1 then Err(NoFilename)
    else if toks[0] == "<" && !readable(toks[1]) then Err(NoSuchFile(toks[1]))
    else Prepend([Redirect(StreamOf(toks[0]), toks[1])], Lex(toks[2..], readable))
  }

  /** The tokens an item was read from. */
  function Spelling(x: Item): seq<string>
  {
    match x
    case Word(w) => [w]
    case Pipe => ["|"]
    case Amp => ["&"]
    case Redirect(s, f) => [OperatorOf(s), f]
  }

  function Unlex(items: seq<Item>): seq<string>
    decreases |items|
  {
    if items == [] then [] else Spelling(items[0]) + Unlex(items[1..])
  }

  // ---------------------------------------------------------------------
  // Processes of a pipeline

  /** A process as `parseInput` allocates it: zeroed, with the shell's three streams. */
  const EmptyStage: Process := Process(0, [], Inherited, Inherited, Inherited, Running)

  function Redirected(p: Process, s: Stream, path: string): Process
  {
    match s
    case StdIn => p.(fileIn := Opened(path))
    case StdOut => p.(fileOut := Opened(path))
    case StdErr => p.(fileErr := Opened(path))
  }

  /** What an item other than `|` does to the process being built. */
  function Apply(p: Process, x: Item): Process
  {
    match x
    case Word(w) => p.(argv := p.argv + [w])
    case Redirect(s, f) => Redirected(p, s, f)
    case _ => p
  }

  /**
    The processes described by `items`: a word is appended to the arguments of
    the current process, a redirection replaces its stream, `|` starts a new
    process and `&` changes nothing here.
   */
  function Stages(items: seq<Item>): (r: seq<Process>)
    ensures |r| >= 1
    decreases |items|
  {
    if items == [] then [EmptyStage]
    else
      var prev := Stages(items[..|items| - 1]);
      var x := items[|items| - 1];
      if x.Pipe? then prev + [EmptyStage] else prev[|prev| - 1 := Apply(prev[|prev| - 1], x)]
  }

  /** What `parseInput` leaves in the job for the command line `cmdline` with tokens `toks`. */
  function Parse(cmdline: string, toks: seq<string>, readable: string -> bool): Result<Job, ParseError>
  {
    if toks == [] then Err(EmptyLine)
    else
      match Lex(toks, readable)
      case Err(e) => Err(e)
      case Ok(items) =>
        Ok(Job(0, cmdline, false, 0, items != [] && items[|items| - 1] == Amp, Stages(items)))
  }

  // ---------------------------------------------------------------------
  // parseInput

  /** `process_add`: the process goes to the end of the job's list. */
  function ProcessAdd(j: Job, p: Process): (r: Job)
    ensures |r.procs| == |j.procs| + 1 && r.procs[..|j.procs|] == j.procs && r.procs[|j.procs|] == p
    ensures r.(procs := j.procs) == j
  {
    j.(procs := j.procs + [p])
  }

  lemma PrependAppend(done: seq<Item>, x: Item, r: Result<seq<Item>, ParseError>)
    ensures Prepend(done, Prepend([x], r)) == Prepend(done + [x], r)
  {
    if r.Ok? {
      assert done + ([x] + r.value) == (done + [x]) + r.value;
    }
  }

  /** `Lex` on the tokens from position `i` on, unfolded once in terms of `args`. */
  lemma LexAt(args: seq<string>, i: nat, readable: string -> bool)
    requires i < |args|
    ensures Lex(args[i..], readable) ==
      if !IsOperator(args[i]) then Prepend([Word(args[i])], Lex(args[i + 1..], readable))
      else if args[i] == "|" then
        if i + 1 == |args| then Err(NoArgAfterPipe) else Prepend([Pipe], Lex(args[i + 1..], readable))
      else if args[i] == "&" then
        if i + 1 != |args| then Err(AmpNotLast) else Ok([Amp])
      else if i + 1 == |args| then Err(NoFilename)
      else if args[i] == "<" && !readable(args[i + 1]) then Err(NoSuchFile(args[i + 1]))
      else Prepend([Redirect(StreamOf(args[i]), args[i + 1])], Lex(args[i + 2..], readable))
  {
    var rest := args[i..];
    assert rest[0] == args[i] && rest[1..] == args[i + 1..];
    if i + 1 < |args| {
      assert rest[1] == args[i + 1] && rest[2..] == args[i + 2..];
    }
  }

  /** A token read on its own (a word, `|`, or `&` as the last token) at position `i`. */
  lemma LexOneAt(args: seq<string>, i: nat, readable: string -> bool, x: Item)
    requires i < |args|
    requires x.Amp? ==> i + 1 == |args|
    requires x.Pipe? ==> i + 1 < |args|
    requires x == (if !IsOperator(args[i]) then Word(args[i]) else if args[i] == "|" then Pipe else Amp)
    requires !IsOperator(args[i]) || args[i] == "|" || args[i] == "&"
    ensures Lex(args[i..], readable) == Prepend([x], Lex(args[i + 1..], readable))
  {
    LexAt(args, i, readable);
    if x == Amp {
      assert args[i + 1..] == [] && [Amp] + [] == [Amp];
    }
  }

  /** A redirection operator at position `i` with its file after it. */
  lemma LexRedirectAt(args: seq<string>, i: nat, readable: string -> bool, s: Stream)
    requires i + 1 < |args| && args[i] == OperatorOf(s)
    requires s == StdIn ==> readable(args[i + 1])
    ensures Lex(args[i..], readable) == Prepend([Redirect(s, args[i + 1])], Lex(args[i + 2..], readable))
  {
    LexAt(args, i, readable);
  }

  /** The error `Lex` meets at position `i`, if it meets one there. */
  lemma LexFailsAt(args: seq<string>, i: nat, readable: string -> bool, e: ParseError)
    requires i < |args| && IsOperator(args[i])
    requires e == (if args[i] == "|" then NoArgAfterPipe else if args[i] == "&" then AmpNotLast
      else if i + 1 == |args| then NoFilename else NoSuchFile(args[i + 1]))
    requires args[i] == "|" ==> i + 1 == |args|
    requires args[i] == "&" ==> i + 1 != |args|
    requires args[i] != "|" && args[i] != "&" && i + 1 < |args| ==> args[i] == "<" && !readable(args[i + 1])
    ensures Lex(args[i..], readable) == Err(e)
  {
    LexAt(args, i, readable);
  }

  /** The item `x` read after `done` changes only the last process, or starts a new one. */
  lemma StagesExtend(procs: seq<Process>, p: Process, done: seq<Item>, x: Item)
    requires procs + [p] == Stages(done)
    ensures x.Pipe? ==> Stages(done + [x]) == (procs + [p]) + [EmptyStage]
    ensures !x.Pipe? ==> Stages(done + [x]) == procs + [Apply(p, x)]
  {
    assert (done + [x])[..|done|] == done;
    var prev := procs + [p];
    if !x.Pipe? {
      assert prev[|prev| - 1 := Apply(p, x)] == procs + [Apply(p, x)];
    }
  }

  /**
    The tokens from `at` up to `next` are read as the item `x`: the items
    read so far grow by `x` and reading resumes at `next`.
   */
  lemma Advance(args: seq<string>, readable: string -> bool, at: nat, next: nat, done: seq<Item>, x: Item)
    requires at < next <= |args|
    requires Lex(args, readable) == Prepend(done, Lex(args[at..], readable))
    requires x.Word? ==> next == at + 1 && args[at] == x.w && !IsOperator(x.w)
    requires x.Pipe? ==> next == at + 1 < |args| && args[at] == "|"
    requires x.Amp? ==> next == at + 1 == |args| && args[at] == "&"
    requires x.Redirect? ==> next == at + 2 && args[at] == OperatorOf(x.stream) && args[at + 1] == x.file
    requires x.Redirect? && x.stream == StdIn ==> readable(x.file)
    ensures Lex(args, readable) == Prepend(done + [x], Lex(args[next..], readable))
  {
    if x.Redirect? {
      LexRedirectAt(args, at, readable, x.stream);
    } else {
      LexOneAt(args, at, readable, x);
    }
    PrependAppend(done, x, Lex(args[next..], readable));
  }

  lemma ParseFails(cmdline: string, toks: seq<string>, readable: string -> bool, e: ParseError)
    requires toks != [] && Lex(toks, readable) == Err(e)
    ensures Parse(cmdline, toks, readable) == Err(e)
  {
  }

  lemma ParseSucceeds(cmdline: string, toks: seq<string>, readable: string -> bool, items: seq<Item>)
    requires toks != [] && Lex(toks, readable) == Ok(items)
    ensures Parse(cmdline, toks, readable) ==
      Ok(Job(0, cmdline, false, 0, items != [] && items[|items| - 1] == Amp, Stages(items)))
  {
  }

  /**
    The state of the token loop of `parseInput` after the tokens before `index`
    were read as the items `done`: what remains to be read decides the outcome,
    `job` holds the processes closed so far, `proc` the one being built, and
    the job is in the background exactly when the last item read is `&`.
   */
  ghost predicate Scanning(args: seq<string>, readable: string -> bool, cmdline: string,
                           index: nat, done: seq<Item>, job: Job, proc: Process)
  {
    index <= |args| &&
    Lex(args, readable) == Prepend(done, Lex(args[index..], readable)) &&
    job.procs + [proc] == Stages(done) &&
    job.pgid == 0 && job.cmdline == cmdline && !job.notified && job.num == 0 &&
    job.background == (done != [] && done[|done| - 1] == Amp) &&
    (job.background ==> index == |args|)
  }

  /** Reading the item `x` keeps the loop state: `|` closes the process, `&` sets the background flag. */
  lemma ScanStep(args: seq<string>, readable: string -> bool, cmdline: string, index: nat, next: nat,
                 done: seq<Item>, job: Job, proc: Process, x: Item)
    requires index < next <= |args| && Scanning(args, readable, cmdline, index, done, job, proc)
    requires x.Word? ==> next == index + 1 && args[index] == x.w && !IsOperator(x.w)
    requires x.Pipe? ==> next == index + 1 < |args| && args[index] == "|"
    requires x.Amp? ==> next == index + 1 == |args| && args[index] == "&"
    requires x.Redirect? ==> next == index + 2 && args[index] == OperatorOf(x.stream) && args[index + 1] == x.file
    requires x.Redirect? && x.stream == StdIn ==> readable(x.file)
    ensures x.Pipe? ==> Scanning(args, readable, cmdline, next, done + [x], ProcessAdd(job, proc), EmptyStage)
    ensures x.Amp? ==> Scanning(args, readable, cmdline, next, done + [x], job.(background := true), proc)
    ensures !x.Pipe? && !x.Amp? ==> Scanning(args, readable, cmdline, next, done + [x], job, Apply(proc, x))
  {
    StagesExtend(job.procs, proc, done, x);
    Advance(args, readable, index, next, done, x);
  }

  /** An error met at `index` is the outcome of the whole parse. */
  lemma ScanFails(args: seq<string>, readable: string -> bool, cmdline: string, index: nat,
                  done: seq<Item>, job: Job, proc: Process, e: ParseError)
    requires index < |args| && Scanning(args, readable, cmdline, index, done, job, proc) && IsOperator(args[index])
    requires e == (if args[index] == "|" then NoArgAfterPipe else if args[index] == "&" then AmpNotLast
      else if index + 1 == |args| then NoFilename else NoSuchFile(args[index + 1]))
    requires args[index] == "|" ==> index + 1 == |args|
    requires args[index] == "&" ==> index + 1 != |args|
    requires args[index] != "|" && args[index] != "&" && index + 1 < |args| ==>
      args[index] == "<" && !readable(args[index + 1])
    ensures Lex(args, readable) == Err(e)
  {
    LexFailsAt(args, index, readable, e);
  }

  /**
    One pass of the token loop of `parseInput`: the token at `index` (and, for
    a redirection, the file after it) is consumed, or the error it causes is
    returned.
   */
  method ScanToken(args: seq<string>, readable: string -> bool, ghost cmdline: string,
                   index: nat, ghost done: seq<Item>, job: Job, proc: Process)
    returns (next: nat, job': Job, proc': Process, failed: Option<ParseError>, ghost done': seq<Item>)
    requires index < |args| && Scanning(args, readable, cmdline, index, done, job, proc)
    ensures failed.Some? ==> Lex(args, readable) == Err(failed.value)
    ensures failed.None? ==> index < next && Scanning(args, readable, cmdline, next, done', job', proc')
  {
    var t := args[index];
    next, job', proc', failed, done' := index + 1, job, proc, None, done;
    if IsOperator(t) {
      if t == "|" {
        if next == |args| {
          ScanFails(args, readable, cmdline, index, done, job, proc, NoArgAfterPipe);
          return next, job, proc, Some(NoArgAfterPipe), done;
        }
        ScanStep(args, readable, cmdline, index, next, done, job, proc, Pipe);
        job' := ProcessAdd(job, proc);
        proc' := EmptyStage;
        done' := done + [Pipe];
      } else if t == "&" {
        if next != |args| {
          ScanFails(args, readable, cmdline, index, done, job, proc, AmpNotLast);
          return next, job, proc, Some(AmpNotLast), done;
        }
        ScanStep(args, readable, cmdline, index, next, done, job, proc, Amp);
        job' := job.(background := true);
        done' := done + [Amp];
      } else {
        if next == |args| {
          ScanFails(args, readable, cmdline, index, done, job, proc, NoFilename);
          return next, job, proc, Some(NoFilename), done;
        }
        var file := args[next];
        next := next + 1;
        if t == ">" {
          ScanStep(args, readable, cmdline, index, next, done, job, proc, Redirect(StdOut, file));
          proc' := proc.(fileOut := Opened(file));
          done' := done + [Redirect(StdOut, file)];
        } else if t == "<" {
          if !readable(file) {
            ScanFails(args, readable, cmdline, index, done, job, proc, NoSuchFile(file));
            return next, job, proc, Some(NoSuchFile(file)), done;
          }
          ScanStep(args, readable, cmdline, index, next, done, job, proc, Redirect(StdIn, file));
          proc' := proc.(fileIn := Opened(file));
          done' := done + [Redirect(StdIn, file)];
        } else {
          ScanStep(args, readable, cmdline, index, next, done, job, proc, Redirect(StdErr, file));
          proc' := proc.(fileErr := Opened(file));
          done' := done + [Redirect(StdErr, file)];
        }
      }
    } else {
      ScanStep(args, readable, cmdline, index, next, done, job, proc, Word(t));
      proc' := proc.(argv := proc.argv + [t]);
      done' := done + [Word(t)];
    }
  }

  /**
    `parseInput`: the blank-separated tokens of the line are read left to
    right; the job gets its processes as each `|` and the end of the line
    close one, and the first error ends the parse.
   */
  method ParseInput(cmdline: string, readable: string -> bool) returns (r: Result<Job, ParseError>)
    ensures r == Parse(cmdline, Split(cmdline, Blanks), readable)
  {
    var args := StrtokAll(cmdline, Blanks);
    if |args| == 0 {
      return Err(EmptyLine);
    }
    var job := Job(0, cmdline, false, 0, false, []);
    var proc := EmptyStage;
    ghost var done: seq<Item> := [];
    var index := 0;
    assert args[index..] == args;
    assert Lex(args, readable).Ok? ==> [] + Lex(args, readable).value == Lex(args, readable).value;
    while index < |args|
      invariant Scanning(args, readable, cmdline, index, done, job, proc)
      decreases |args| - index
    {
      var failed;
      index, job, proc, failed, done := ScanToken(args, readable, cmdline, index, done, job, proc);
      if failed.Some? {
        ParseFails(cmdline, args, readable, failed.value);
        return Err(failed.value);
      }
    }
    assert args[index..] == [];
    assert done + [] == done;
    job := ProcessAdd(job, proc);
    assert job == Job(0, cmdline, false, 0, job.background, Stages(done));
    ParseSucceeds(cmdline, args, readable, done);
    r := Ok(job);
  }

  // ---------------------------------------------------------------------
  // What a parse keeps

  /** Concatenation of item spellings distributes over appending items. */
  lemma {:induction false} UnlexAppend(a: seq<Item>, b: seq<Item>)
    ensures Unlex(a + b) == Unlex(a) + Unlex(b)
    decreases |a|
  {
    if a == [] {
      assert a + b == b;
    } else {
      assert (a + b)[0] == a[0] && (a + b)[1..] == a[1..] + b;
      UnlexAppend(a[1..], b);
    }
  }

  /** Nothing is lost or invented by `Lex`: spelling the items out again gives the tokens back. */
  lemma {:induction false} LexRoundTrip(toks: seq<string>, readable: string -> bool, items: seq<Item>)
    requires Lex(toks, readable) == Ok(items)
    ensures Unlex(items) == toks
    decreases |toks|
  {
    if toks == [] {
    } else if !IsOperator(toks[0]) || toks[0] == "|" {
      var rest := Lex(toks[1..], readable).value;
      LexRoundTrip(toks[1..], readable, rest);
      assert items[0] == (if toks[0] == "|" then Pipe else Word(toks[0])) && items[1..] == rest;
      assert toks == [toks[0]] + toks[1..];
    } else if toks[0] == "&" {
      assert items == [Amp];
    } else {
      var rest := Lex(toks[2..], readable).value;
      LexRoundTrip(toks[2..], readable, rest);
      assert items[0] == Redirect(StreamOf(toks[0]), toks[1]) && items[1..] == rest;
      assert toks == [toks[0], toks[1]] + toks[2..];
    }
  }

  /**
    What `Lex` accepts: a word is never an operator, `&` can only be the last
    item, `|` never is, and there are at most as many items as tokens.
   */
  lemma {:induction false} LexShape(toks: seq<string>, readable: string -> bool, items: seq<Item>)
    requires Lex(toks, readable) == Ok(items)
    ensures forall i :: 0 <= i < |items| && items[i].Word? ==> !IsOperator(items[i].w)
    ensures forall i :: 0 <= i < |items| && items[i].Amp? ==> i == |items| - 1
    ensures items != [] ==> !items[|items| - 1].Pipe?
    ensures forall i :: 0 <= i < |items| && items[i].Redirect? && items[i].stream == StdIn ==> readable(items[i].file)
    ensures |items| <= |toks|
    decreases |toks|
  {
    if toks != [] && (!IsOperator(toks[0]) || toks[0] == "|" || toks[0] != "&") {
      var tail := if !IsOperator(toks[0]) || toks[0] == "|" then toks[1..] else toks[2..];
      var rest := Lex(tail, readable).value;
      LexShape(tail, readable, rest);
      assert items[1..] == rest;
      assert forall i :: 1 <= i < |items| ==> items[i] == rest[i - 1];
      assert toks[0] == "|" ==> rest != [];
    }
  }

  /** The item sequences `Lex` produces, as `LexShape` describes them. */
  ghost predicate WellFormed(items: seq<Item>, readable: string -> bool)
  {
    && (forall i :: 0 <= i < |items| && items[i].Word? ==> !IsOperator(items[i].w))
    && (forall i :: 0 <= i < |items| && items[i].Amp? ==> i == |items| - 1)
    && (items != [] ==> !items[|items| - 1].Pipe?)
    && (forall i :: 0 <= i < |items| && items[i].Redirect? && items[i].stream == StdIn ==> readable(items[i].file))
  }

  /** The converse of `LexShape` and `LexRoundTrip`: spelling out well-formed items gives tokens that lex back to them. */
  lemma {:induction false} LexComplete(items: seq<Item>, readable: string -> bool)
    requires WellFormed(items, readable)
    ensures Lex(Unlex(items), readable) == Ok(items)
    decreases |items|
  {
    if items != [] {
      var x, rest := items[0], items[1..];
      assert items == [x] + rest;
      assert forall i :: 0 <= i < |rest| ==> rest[i] == items[i + 1];
      var toks := Unlex(items);
      assert toks == Spelling(x) + Unlex(rest);
      if x.Amp? {
        assert items == [Amp];
      } else {
        LexComplete(rest, readable);
        if x.Pipe? {
          assert Unlex(rest) == Spelling(rest[0]) + Unlex(rest[1..]);
          assert toks[1..] == Unlex(rest);
        } else if x.Word? {
          assert toks[1..] == Unlex(rest);
        } else {
          assert toks[2..] == Unlex(rest);
        }
      }
    }
  }

  /** `Lex` accepts exactly the spellings of well-formed items. */
  lemma LexAccepts(toks: seq<string>, readable: string -> bool, items: seq<Item>)
    ensures Lex(toks, readable) == Ok(items) <==> WellFormed(items, readable) && Unlex(items) == toks
  {
    if Lex(toks, readable) == Ok(items) {
      LexRoundTrip(toks, readable, items);
      LexShape(toks, readable, items);
    }
    if WellFormed(items, readable) && Unlex(items) == toks {
      LexComplete(items, readable);
    }
  }

  /** The arguments of all processes, one process after the other. */
  function Argvs(ps: seq<Process>): seq<string>
    decreases |ps|
  {
    if ps == [] then [] else Argvs(ps[..|ps| - 1]) + ps[|ps| - 1].argv
  }

  /** The words among the items, in order. */
  function Words(items: seq<Item>): seq<string>
    decreases |items|
  {
    if items == [] then []
    else Words(items[..|items| - 1]) + (if items[|items| - 1].Word? then [items[|items| - 1].w] else [])
  }

  function PipeCount(items: seq<Item>): nat
    decreases |items|
  {
    if items == [] then 0 else PipeCount(items[..|items| - 1]) + (if items[|items| - 1].Pipe? then 1 else 0)
  }

  /** A pipeline has one process more than it has `|` operators. */
  lemma {:induction false} StagesCount(items: seq<Item>)
    ensures |Stages(items)| == PipeCount(items) + 1
    decreases |items|
  {
    if items != [] {
      StagesCount(items[..|items| - 1]);
    }
  }

  /** Every word becomes an argument, in order, of the process it belongs to, and nothing else does. */
  lemma {:induction false} StagesKeepWords(items: seq<Item>)
    ensures Argvs(Stages(items)) == Words(items)
    decreases |items|
  {
    if items != [] {
      var init := items[..|items| - 1];
      var x := items[|items| - 1];
      var prev := Stages(init);
      StagesKeepWords(init);
      if !x.Pipe? {
        var last := |prev| - 1;
        var next := prev[last := Apply(prev[last], x)];
        assert next[..last] == prev[..last];
        assert Argvs(next) == Argvs(prev[..last]) + prev[last].argv + (if x.Word? then [x.w] else []);
      } else {
        assert (prev + [EmptyStage])[..|prev|] == prev;
      }
    }
  }

  // ---------------------------------------------------------------------
  // One process per `|`-separated segment

  /** The items split at every `|`: the segments between the operators, in order. */
  function Segments(items: seq<Item>): (r: seq<seq<Item>>)
    ensures |r| >= 1
    decreases |items|
  {
    if items == [] then [[]]
    else
      var prev := Segments(items[..|items| - 1]);
      var x := items[|items| - 1];
      if x.Pipe? then prev + [[]] else prev[|prev| - 1 := prev[|prev| - 1] + [x]]
  }

  /** The segments put back together, with a `|` between each two. */
  function Join(segs: seq<seq<Item>>): seq<Item>
    requires |segs| >= 1
    decreases |segs|
  {
    if |segs| == 1 then segs[0] else Join(segs[..|segs| - 1]) + [Pipe] + segs[|segs| - 1]
  }

  /** `Segments` is the split at `|`: no segment holds a `|`, and joining them gives the items back. */
  lemma SegmentsSplit(items: seq<Item>)
    ensures Join(Segments(items)) == items
    ensures forall i, k :: 0 <= i < |Segments(items)| && 0 <= k < |Segments(items)[i]| ==> !Segments(items)[i][k].Pipe?
  {
    SegmentsJoin(items);
    SegmentsHaveNoPipe(items);
  }

  /** Joining the segments gives the items back. */
  lemma {:induction false} SegmentsJoin(items: seq<Item>)
    ensures Join(Segments(items)) == items
    decreases |items|
  {
    if items != [] {
      var init, x := items[..|items| - 1], items[|items| - 1];
      var prev := Segments(init);
      SegmentsJoin(init);
      assert items == init + [x];
      if x.Pipe? {
        assert (prev + [[]])[..|prev|] == prev;
      } else {
        JoinExtend(prev, x);
      }
    }
  }

  /** No segment holds a `|`. */
  lemma {:induction false} SegmentsHaveNoPipe(items: seq<Item>)
    ensures forall i, k :: 0 <= i < |Segments(items)| && 0 <= k < |Segments(items)[i]| ==> !Segments(items)[i][k].Pipe?
    decreases |items|
  {
    if items != [] {
      var init, x := items[..|items| - 1], items[|items| - 1];
      var prev := Segments(init);
      SegmentsHaveNoPipe(init);
      var n := |prev| - 1;
      if !x.Pipe? {
        var next := prev[n := prev[n] + [x]];
        assert forall k :: 0 <= k < |next[n]| ==> next[n][k] == x || next[n][k] == prev[n][k];
      }
    }
  }

  /** An item added to the last segment is added at the end of the joined items. */
  lemma JoinExtend(segs: seq<seq<Item>>, x: Item)
    requires |segs| >= 1
    ensures Join(segs[|segs| - 1 := segs[|segs| - 1] + [x]]) == Join(segs) + [x]
  {
    var n := |segs| - 1;
    var next := segs[n := segs[n] + [x]];
    if n > 0 {
      assert next[..n] == segs[..n];
      var front := Join(segs[..n]) + [Pipe];
      assert Join(next) == front + (segs[n] + [x]);
      assert Join(segs) == front + segs[n];
    }
  }

  /** The process one segment describes, built from a fresh one item by item. */
  function Build(seg: seq<Item>): Process
    decreases |seg|
  {
    if seg == [] then EmptyStage else Apply(Build(seg[..|seg| - 1]), seg[|seg| - 1])
  }

  /** Where stream `s` of a process goes. */
  function StreamOfProcess(p: Process, s: Stream): Fd
  {
    match s
    case StdIn => p.fileIn
    case StdOut => p.fileOut
    case StdErr => p.fileErr
  }

  /** The file of the last redirection of stream `s` in `seg`, or the shell's own stream when there is none. */
  function LastRedirect(seg: seq<Item>, s: Stream): Fd
    decreases |seg|
  {
    if seg == [] then Inherited
    else if seg[|seg| - 1].Redirect? && seg[|seg| - 1].stream == s then Opened(seg[|seg| - 1].file)
    else LastRedirect(seg[..|seg| - 1], s)
  }

  /**
    A process built from a segment has the segment's words as its arguments,
    and each of its streams goes to the last file redirected for it, the
    shell's own stream otherwise; it has no pid yet and counts as running.
   */
  lemma {:induction false} BuildMeans(seg: seq<Item>)
    ensures Build(seg).argv == Words(seg)
    ensures forall s :: StreamOfProcess(Build(seg), s) == LastRedirect(seg, s)
    ensures Build(seg).pid == 0 && Build(seg).status == Running
    decreases |seg|
  {
    if seg != [] {
      BuildMeans(seg[..|seg| - 1]);
    }
  }

  /** Process `i` of a pipeline is built from the `i`-th segment, and from nothing else. */
  lemma {:induction false} StagesBySegment(items: seq<Item>)
    ensures |Stages(items)| == |Segments(items)|
    ensures forall i :: 0 <= i < |Stages(items)| ==> Stages(items)[i] == Build(Segments(items)[i])
    decreases |items|
  {
    if items != [] {
      var init, x := items[..|items| - 1], items[|items| - 1];
      StagesBySegment(init);
      var segs := Segments(init);
      var n := |segs| - 1;
      if !x.Pipe? {
        assert (segs[n] + [x])[..|segs[n]|] == segs[n];
      }
    }
  }

  /** A job runs in the background only when its line ends with the token `&`. */
  lemma BackgroundNeedsTrailingAmp(cmdline: string, toks: seq<string>, readable: string -> bool)
    requires Parse(cmdline, toks, readable).Ok?
    ensures Parse(cmdline, toks, readable).value.background ==> toks[|toks| - 1] == "&"
  {
    var items := Lex(toks, readable).value;
    assert Parse(cmdline, toks, readable).value.background == (items != [] && items[|items| - 1] == Amp);
    if items != [] && items[|items| - 1] == Amp {
      LexRoundTrip(toks, readable, items);
      var init := items[..|items| - 1];
      assert items == init + [Amp];
      UnlexAppend(init, [Amp]);
      assert Unlex([Amp]) == ["&"] by {
        assert [Amp][1..] == [];
      }
      assert toks == Unlex(init) + ["&"];
    }
  }

  lemma LexAmpAsFileName(readable: string -> bool)
    ensures Lex(["a", ">", "&"], readable) == Ok([Word("a"), Redirect(StdOut, "&")])
  {
    var toks := ["a", ">", "&"];
    assert !IsOperator("a") && toks[3..] == [] && toks[0..] == toks;
    LexRedirectAt(toks, 1, readable, StdOut);
    LexOneAt(toks, 0, readable, Word("a"));
    assert [Redirect(StdOut, "&")] + [] == [Redirect(StdOut, "&")];
    assert [Word("a")] + [Redirect(StdOut, "&")] == [Word("a"), Redirect(StdOut, "&")];
  }

  lemma StagesAmpAsFileName()
    ensures Stages([Word("a"), Redirect(StdOut, "&")]) == [EmptyStage.(argv := ["a"], fileOut := Opened("&"))]
  {
    var p := EmptyStage.(argv := ["a"]);
    assert Stages([]) == [] + [EmptyStage];
    StagesExtend([], EmptyStage, [], Word("a"));
    assert EmptyStage.argv + ["a"] == ["a"];
    assert [] + [Word("a")] == [Word("a")];
    StagesExtend([], p, [Word("a")], Redirect(StdOut, "&"));
    assert [Word("a")] + [Redirect(StdOut, "&")] == [Word("a"), Redirect(StdOut, "&")];
  }

  /**
    The converse does not hold: a trailing `&` right after a redirection
    operator is taken as the file name and the job stays in the foreground.
   */
  lemma AmpAsFileName(readable: string -> bool)
    ensures Parse("a > &", ["a", ">", "&"], readable) ==
      Ok(Job(0, "a > &", false, 0, false, [EmptyStage.(argv := ["a"], fileOut := Opened("&"))]))
  {
    LexAmpAsFileName(readable);
    StagesAmpAsFileName();
  }

  /** The items of a line without operators: one word per token. */
  function WordItems(ws: seq<string>): (items: seq<Item>)
  {
    seq(|ws|, i requires 0 <= i < |ws| => Word(ws[i]))
  }

  lemma {:induction false} LexPlainWords(toks: seq<string>, readable: string -> bool)
    requires forall i :: 0 <= i < |toks| ==> !IsOperator(toks[i])
    ensures Lex(toks, readable) == Ok(WordItems(toks))
    decreases |toks|
  {
    if toks != [] {
      LexPlainWords(toks[1..], readable);
      assert WordItems(toks) == [Word(toks[0])] + WordItems(toks[1..]);
    }
  }

  lemma {:induction false} StagesOfWords(ws: seq<string>)
    ensures Stages(WordItems(ws)) == [EmptyStage.(argv := ws)]
    decreases |ws|
  {
    if ws != [] {
      var init := ws[..|ws| - 1];
      assert WordItems(ws)[..|ws| - 1] == WordItems(init);
      StagesOfWords(init);
      assert init + [ws[|ws| - 1]] == ws;
    }
  }

  /** A line without operators is a single foreground process whose arguments are its tokens. */
  lemma PlainCommand(cmdline: string, toks: seq<string>, readable: string -> bool)
    requires toks != [] && forall i :: 0 <= i < |toks| ==> !IsOperator(toks[i])
    ensures Parse(cmdline, toks, readable) == Ok(Job(0, cmdline, false, 0, false, [EmptyStage.(argv := toks)]))
  {
    LexPlainWords(toks, readable);
    StagesOfWords(toks);
  }

  lemma {:induction false} LexNeverEmptyLine(toks: seq<string>, readable: string -> bool)
    ensures Lex(toks, readable) != Err(EmptyLine)
    decreases |toks|
  {
    if |toks| >= 1 {
      LexNeverEmptyLine(toks[1..], readable);
    }
    if |toks| >= 2 {
      LexNeverEmptyLine(toks[2..], readable);
    }
  }

  /** `parseInput` reports an empty line exactly when the line holds only blanks and tabs. */
  lemma EmptyLineMeansBlank(cmdline: string, readable: string -> bool)
    ensures Parse(cmdline, Split(cmdline, Blanks), readable) == Err(EmptyLine) <==>
      forall i :: 0 <= i < |cmdline| ==> cmdline[i] in Blanks
  {
    LexNeverEmptyLine(Split(cmdline, Blanks), readable);
    if forall i :: 0 <= i < |cmdline| ==> cmdline[i] in Blanks {
      OnlyDelimitersSplitEmpty(cmdline, Blanks);
    } else if Split(cmdline, Blanks) == [] {
      SplitKeepsText(cmdline, Blanks);
      KeptEmptyOnlyDelimiters(cmdline, Blanks);
    }
  }

  // ---------------------------------------------------------------------
  // The argument vector buffer

  /** ARG_LIMIT of yash.c. */
  const ArgLimit: nat := 128

  /** Size of a pointer in bytes on an LP64 platform. */
  const PointerBytes: nat := 8

  /**
    The pointer entries the buffer for a process's arguments holds as written:
    `malloc(ARG_LIMIT+1)` allocates ARG_LIMIT + 1 bytes, not entries.
   */
  function CommandSlotsAsWritten(): nat
  {
    (ArgLimit + 1) / PointerBytes
  }

  /** The entries the buffer was meant to hold: one per possible token, plus the NULL terminator. */
  const CommandSlots: nat := ArgLimit + 1

  /** The arguments of `p` and their NULL terminator fit in a buffer of `slots` entries. */
  predicate FitsCommand(p: Process, slots: nat)
  {
    |p.argv| + 1 <= slots
  }

  lemma {:induction false} ArgvsBound(ps: seq<Process>)
    ensures forall k :: 0 <= k < |ps| ==> |ps[k].argv| <= |Argvs(ps)|
    decreases |ps|
  {
    if ps != [] {
      ArgvsBound(ps[..|ps| - 1]);
      assert forall k :: 0 <= k < |ps| - 1 ==> ps[..|ps| - 1][k] == ps[k];
    }
  }

  lemma {:induction false} WordsBound(items: seq<Item>)
    ensures |Words(items)| <= |items|
    decreases |items|
  {
    if items != [] {
      WordsBound(items[..|items| - 1]);
    }
  }

  /** As written, a command of sixteen words already writes past the end of the buffer. */
  lemma SixteenWordsOverflow(readable: string -> bool)
    ensures var toks := seq(16, _ => "a");
      Parse("", toks, readable).Ok? &&
      !FitsCommand(Parse("", toks, readable).value.procs[0], CommandSlotsAsWritten())
  {
    var toks := seq(16, _ => "a");
    PlainCommand("", toks, readable);
  }

  /**
    With ARG_LIMIT + 1 entries, every process of a line of at most ARG_LIMIT
    tokens fits, terminator included.
   */
  lemma StagesFitCommand(cmdline: string, toks: seq<string>, readable: string -> bool)
    requires |toks| <= ArgLimit && Parse(cmdline, toks, readable).Ok?
    ensures forall k :: 0 <= k < |Parse(cmdline, toks, readable).value.procs| ==>
      FitsCommand(Parse(cmdline, toks, readable).value.procs[k], CommandSlots)
  {
    var items := Lex(toks, readable).value;
    LexShape(toks, readable, items);
    StagesKeepWords(items);
    WordsBound(items);
    ArgvsBound(Stages(items));
  }
}
