/**
  Splitting a command line into tokens the way repeated calls to `strtok` do
  (ISO C11 section 7.24.5.8): every maximal run of characters outside the
  delimiter set is one token, delimiters themselves are never part of a token.

  `Split` is the specification, written as a recursion over the leading run of
  the string; `Runs` is an independent count of the places where a run starts;
  `Strtok` is one call of the library routine, given as the position it
  resumes from. Both tokenizers of the shell (`parseInput` in yash.c, splitting
  on space and tab, and `tokenize_command` in parse.c, splitting on space and
  newline) are proved against `Split`.
 */
module Tokens {
  import opened Wrappers

  /** The delimiter set of `parseInput` in yash.c. */
  const Blanks: set<char> := {' ', '\t'}

  /** The delimiter set of `tokenize_command` in parse.c. */
  const Spacing: set<char> := {' ', '\n'}

  /** Length of the run of non-delimiters at the front of `s`. */
  function RunLength(s: string, delims: set<char>): (n: nat)
    ensures n <= |s|
    ensures forall i :: 0 <= i < n ==> s[i] !in delims
    ensures n == |s| || s[n] in delims
  {
    if s == [] || s[0] in delims then 0 else 1 + RunLength(s[1..], delims)
  }

  /** The tokens of `s`, in order of appearance. */
  function Split(s: string, delims: set<char>): (r: seq<string>)
    ensures forall k :: 0 <= k < |r| ==> r[k] != []
    ensures forall k, i :: 0 <= k < |r| && 0 <= i < |r[k]| ==> r[k][i] !in delims
    decreases |s|
  {
    if s == [] then []
    else if s[0] in delims then Split(s[1..], delims)
    else
      var n := RunLength(s, delims);
      [s[..n]] + Split(s[n..], delims)
  }

  /**
    The number of positions at which a token starts: a non-delimiter that is
    the first character or follows a delimiter. `afterDelim` says whether the
    character before `s` was a delimiter (or there was none).
   */
  function Starts(s: string, delims: set<char>, afterDelim: bool): nat
    decreases |s|
  {
    if s == [] then 0
    else (if afterDelim && s[0] !in delims then 1 else 0) + Starts(s[1..], delims, s[0] in delims)
  }

  /** The number of maximal runs of non-delimiters in `s`. */
  function Runs(s: string, delims: set<char>): nat
  {
    Starts(s, delims, true)
  }

  /** The characters of `s` that are not delimiters, in order. */
  function Kept(s: string, delims: set<char>): string
    decreases |s|
  {
    if s == [] then [] else (if s[0] in delims then [] else [s[0]]) + Kept(s[1..], delims)
  }

  /** The tokens written one after the other. */
  function Concat(ts: seq<string>): string
  {
    if ts == [] then [] else ts[0] + Concat(ts[1..])
  }

  /** Inside a run the scan does not start a new token, so counting resumes after the run. */
  lemma {:induction false} StartsAcrossRun(s: string, delims: set<char>)
    ensures Starts(s, delims, false) == Starts(s[RunLength(s, delims)..], delims, true)
    decreases |s|
  {
    if s != [] && s[0] !in delims {
      assert s[1..][RunLength(s[1..], delims)..] == s[RunLength(s, delims)..];
      StartsAcrossRun(s[1..], delims);
    }
  }

  /** `Split` yields exactly one token per maximal run of non-delimiters. */
  lemma {:induction false} SplitCountsRuns(s: string, delims: set<char>)
    ensures |Split(s, delims)| == Runs(s, delims)
    decreases |s|
  {
    if s == [] {
    } else if s[0] in delims {
      SplitCountsRuns(s[1..], delims);
    } else {
      var n := RunLength(s, delims);
      StartsAcrossRun(s[1..], delims);
      assert s[1..][RunLength(s[1..], delims)..] == s[n..];
      SplitCountsRuns(s[n..], delims);
    }
  }

  lemma {:induction false} KeptAppend(a: string, b: string, delims: set<char>)
    ensures Kept(a + b, delims) == Kept(a, delims) + Kept(b, delims)
    decreases |a|
  {
    if a == [] {
      assert a + b == b;
    } else {
      var head: string := if a[0] in delims then [] else [a[0]];
      assert (a + b)[0] == a[0] && (a + b)[1..] == a[1..] + b;
      assert Kept(a + b, delims) == head + Kept(a[1..] + b, delims);
      KeptAppend(a[1..], b, delims);
    }
  }

  lemma {:induction false} KeptRun(s: string, delims: set<char>)
    requires forall i :: 0 <= i < |s| ==> s[i] !in delims
    ensures Kept(s, delims) == s
    decreases |s|
  {
    if s != [] {
      KeptRun(s[1..], delims);
    }
  }

  /**
    Nothing but delimiters is lost: the tokens, written one after the other,
    are the input with its delimiters removed.
   */
  lemma {:induction false} SplitKeepsText(s: string, delims: set<char>)
    ensures Concat(Split(s, delims)) == Kept(s, delims)
    decreases |s|
  {
    if s == [] {
    } else if s[0] in delims {
      SplitKeepsText(s[1..], delims);
    } else {
      var n := RunLength(s, delims);
      var ts := Split(s, delims);
      assert ts[0] == s[..n] && ts[1..] == Split(s[n..], delims);
      SplitKeepsText(s[n..], delims);
      assert s == s[..n] + s[n..];
      KeptAppend(s[..n], s[n..], delims);
      KeptRun(s[..n], delims);
    }
  }

  /** A string that keeps no character is made only of delimiters. */
  lemma {:induction false} KeptEmptyOnlyDelimiters(s: string, delims: set<char>)
    requires Kept(s, delims) == []
    ensures forall i :: 0 <= i < |s| ==> s[i] in delims
    decreases |s|
  {
    if s != [] {
      KeptEmptyOnlyDelimiters(s[1..], delims);
      assert forall i :: 1 <= i < |s| ==> s[i] == s[1..][i - 1];
    }
  }

  /** A string made only of delimiters has no tokens. */
  lemma {:induction false} OnlyDelimitersSplitEmpty(s: string, delims: set<char>)
    requires forall i :: 0 <= i < |s| ==> s[i] in delims
    ensures Split(s, delims) == []
    decreases |s|
  {
    if s != [] {
      OnlyDelimitersSplitEmpty(s[1..], delims);
    }
  }

  /** A tab is not a delimiter of `tokenize_command`, although it is one of `parseInput`. */
  lemma TabIsKeptBySpacing()
    ensures Split("a\tb", Spacing) == ["a\tb"]
    ensures Split("a\tb", Blanks) == ["a", "b"]
  {
    assert RunLength("a\tb", Spacing) == 3 by {
      assert "a\tb"[1..] == "\tb";
      assert "\tb"[1..] == "b";
      assert "b"[1..] == "";
    }
    assert "a\tb"[..3] == "a\tb";
    assert "a\tb"[3..] == "";
    assert RunLength("a\tb", Blanks) == 1 by {
      assert "a\tb"[1..] == "\tb";
    }
    assert "a\tb"[..1] == "a";
    assert "a\tb"[1..] == "\tb";
    assert "\tb"[1..] == "b";
    assert RunLength("b", Blanks) == 1 by {
      assert "b"[1..] == "";
    }
    assert "b"[..1] == "b";
    assert "b"[1..] == "";
  }

  // ---------------------------------------------------------------------
  // One call of strtok

  /** Where one call of `strtok` found its token and where the next call resumes. */
  datatype Found = Found(start: nat, end: nat, resume: nat)

  /** The first position at or after `pos` that is not a delimiter (or the end). */
  function SkipDelimiters(s: string, pos: nat, delims: set<char>): (q: nat)
    requires pos <= |s|
    ensures pos <= q <= |s|
    ensures forall i :: pos <= i < q ==> s[i] in delims
    ensures q == |s| || s[q] !in delims
    decreases |s| - pos
  {
    if pos == |s| || s[pos] !in delims then pos else SkipDelimiters(s, pos + 1, delims)
  }

  /** The first position at or after `pos` that is a delimiter (or the end). */
  function TokenEnd(s: string, pos: nat, delims: set<char>): (q: nat)
    requires pos <= |s|
    ensures pos <= q <= |s|
    ensures forall i :: pos <= i < q ==> s[i] !in delims
    ensures q == |s| || s[q] in delims
    decreases |s| - pos
  {
    if pos == |s| || s[pos] in delims then pos else TokenEnd(s, pos + 1, delims)
  }

  /**
    One call of `strtok` that resumes at `pos`: skip delimiters; if the string
    is exhausted there is no token (NULL); otherwise the token runs up to the
    next delimiter, which is overwritten by the terminator, so the following
    call resumes just after it.
   */
  function Strtok(s: string, pos: nat, delims: set<char>): (r: Option<Found>)
    requires pos <= |s|
    ensures r.None? <==> forall i :: pos <= i < |s| ==> s[i] in delims
    ensures r.Some? ==> pos <= r.value.start < r.value.end <= r.value.resume <= |s|
    ensures r.Some? ==> forall i :: pos <= i < r.value.start ==> s[i] in delims
    ensures r.Some? ==> forall i :: r.value.start <= i < r.value.end ==> s[i] !in delims
    ensures r.Some? ==> r.value.end == |s| || s[r.value.end] in delims
    ensures r.Some? ==> r.value.resume == (if r.value.end < |s| then r.value.end + 1 else r.value.end)
  {
    var b := SkipDelimiters(s, pos, delims);
    if b == |s| then None
    else
      var e := TokenEnd(s, b, delims);
      Some(Found(b, e, if e < |s| then e + 1 else e))
  }

  lemma {:induction false} SplitSkipsDelimiters(s: string, pos: nat, q: nat, delims: set<char>)
    requires pos <= q <= |s|
    requires forall i :: pos <= i < q ==> s[i] in delims
    ensures Split(s[pos..], delims) == Split(s[q..], delims)
    decreases q - pos
  {
    if pos < q {
      assert s[pos..][1..] == s[pos + 1..];
      SplitSkipsDelimiters(s, pos + 1, q, delims);
    }
  }

  /**
    The tokens still to come from position `pos` are the token the next call
    of `strtok` finds followed by those after the position it resumes from.
   */
  lemma StrtokStep(s: string, pos: nat, delims: set<char>)
    requires pos <= |s|
    ensures Strtok(s, pos, delims).None? ==> Split(s[pos..], delims) == []
    ensures Strtok(s, pos, delims).Some? ==>
      var f := Strtok(s, pos, delims).value;
      Split(s[pos..], delims) == [s[f.start..f.end]] + Split(s[f.resume..], delims)
  {
    var r := Strtok(s, pos, delims);
    if r.None? {
      OnlyDelimitersSplitEmpty(s[pos..], delims);
    } else {
      var f := r.value;
      SplitSkipsDelimiters(s, pos, f.start, delims);
      var t := s[f.start..];
      var n := RunLength(t, delims);
      assert forall i :: 0 <= i < |t| ==> t[i] == s[f.start + i];
      assert n == f.end - f.start;
      assert t[..n] == s[f.start..f.end];
      assert t[n..] == s[f.end..];
      SplitSkipsDelimiters(s, f.end, f.resume, delims);
    }
  }

  /**
    The `strtok` loop of `parseInput` (yash.c), collecting every token of the
    line. Each call resumes where the previous one left off.
   */
  method StrtokAll(s: string, delims: set<char>) returns (toks: seq<string>)
    ensures toks == Split(s, delims)
  {
    toks := [];
    var pos := 0;
    var next := Strtok(s, pos, delims);
    while next.Some?
      invariant pos <= |s|
      invariant next == Strtok(s, pos, delims)
      invariant toks + Split(s[pos..], delims) == Split(s, delims)
      decreases |s| - pos
    {
      StrtokStep(s, pos, delims);
      toks := toks + [s[next.value.start..next.value.end]];
      pos := next.value.resume;
      next := Strtok(s, pos, delims);
    }
    StrtokStep(s, pos, delims);
  }
}
