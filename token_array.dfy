/**
  `tokenize_command` of parse.c: the tokens of a command, split on space and
  newline, stored in a pointer array that starts with room for `MaxTokens`
  entries and grows by `MaxTokens` whenever it fills up; the entry after the
  last token is the NULL terminator. An entry of the array is `None` for NULL
  and `Some(t)` for a pointer to token `t`.
 */
module TokenArray {
  import opened Wrappers
  import opened Tokens

  /** MAX_TOKENS of parse.h: the initial capacity and the growth step. */
  const MaxTokens: nat := 50

  /** The capacity the array has once `count` tokens are stored in it. */
  function Capacity(count: nat): nat
  {
    MaxTokens * (count / MaxTokens + 1)
  }

  /**
    A capacity that is a whole number of growth steps and exceeds `count` by at
    most one step is the capacity the array has after `count` stores.
   */
  lemma CapacityOfSteps(count: nat, steps: nat)
    requires MaxTokens * steps - MaxTokens <= count < MaxTokens * steps
    ensures MaxTokens * steps == Capacity(count)
  {
    assert count / MaxTokens == steps - 1;
  }

  /** `realloc` to `size` entries: a fresh array that starts with the entries of `a`. */
  method Grow(a: array<Option<string>>, size: nat) returns (b: array<Option<string>>)
    requires a.Length <= size
    ensures fresh(b) && b.Length == size
    ensures forall k :: 0 <= k < a.Length ==> b[k] == a[k]
  {
    b := new Option<string>[size];
    var k := 0;
    while k < a.Length
      invariant k <= a.Length
      invariant forall j :: 0 <= j < k ==> b[j] == a[j]
    {
      b[k] := a[k];
      k := k + 1;
    }
  }

  /** The tokens found so far, with the next one, prefix the tokens of the whole command. */
  lemma FoundAdvances(command: string, pos: nat, found: seq<string>)
    requires pos <= |command| && Strtok(command, pos, Spacing).Some?
    requires found + Split(command[pos..], Spacing) == Split(command, Spacing)
    ensures var f := Strtok(command, pos, Spacing).value;
      (found + [command[f.start..f.end]]) + Split(command[f.resume..], Spacing) == Split(command, Spacing)
  {
    StrtokStep(command, pos, Spacing);
    var f := Strtok(command, pos, Spacing).value;
    var token, rest := command[f.start..f.end], Split(command[f.resume..], Spacing);
    assert (found + [token]) + rest == found + ([token] + rest);
  }

  /** Once no token is left, the tokens found so far are all of them. */
  lemma FoundComplete(command: string, pos: nat, found: seq<string>)
    requires pos <= |command| && Strtok(command, pos, Spacing).None?
    requires found + Split(command[pos..], Spacing) == Split(command, Spacing)
    ensures found == Split(command, Spacing)
  {
    StrtokStep(command, pos, Spacing);
  }

  /**
    Returns the array and the number of tokens. The tokens are those of
    `Split(command, Spacing)` in order, one per maximal run of characters other
    than space and newline, and the terminator is inside the array.
   */
  method TokenizeCommand(command: string) returns (tokens: array<Option<string>>, count: nat)
    ensures count == |Split(command, Spacing)| == Runs(command, Spacing)
    ensures tokens.Length == Capacity(count)
    ensures forall k :: 0 <= k < count ==> tokens[k] == Some(Split(command, Spacing)[k])
    ensures count < tokens.Length && tokens[count] == None
  {
    var arraySize := MaxTokens;
    tokens := new Option<string>[arraySize];
    var i := 0;
    ghost var found: seq<string> := [];
    ghost var steps: nat := 1;
    var pos := 0;
    var next := Strtok(command, pos, Spacing);
    while next.Some?
      invariant pos <= |command|
      invariant next == Strtok(command, pos, Spacing)
      invariant fresh(tokens)
      invariant i == |found| && i < arraySize == tokens.Length
      invariant arraySize == MaxTokens * steps && arraySize - MaxTokens <= i
      invariant found + Split(command[pos..], Spacing) == Split(command, Spacing)
      invariant forall k :: 0 <= k < i ==> tokens[k] == Some(found[k])
      decreases |command| - pos
    {
      FoundAdvances(command, pos, found);
      var token := command[next.value.start..next.value.end];
      tokens[i] := Some(token);
      found := found + [token];
      i := i + 1;
      assert forall k :: 0 <= k < i ==> tokens[k] == Some(found[k]);
      if i >= arraySize {
        // realloc: a larger array holding the same first entries
        arraySize := arraySize + MaxTokens;
        steps := steps + 1;
        tokens := Grow(tokens, arraySize);
      }
      pos := next.value.resume;
      next := Strtok(command, pos, Spacing);
    }
    FoundComplete(command, pos, found);
    tokens[i] := None;
    count := i;
    CapacityOfSteps(count, steps);
    SplitCountsRuns(command, Spacing);
  }
}
