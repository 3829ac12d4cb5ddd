/**
 * Newline-terminated text: how a manifest reads as a sequence of lines.
 * Used to state the layout of the manifest entry line by line.
 */
module Lines {

  const NL: char := '\n'

  /** Index of the first newline in `s`, or `|s|` when there is none. */
  function LineEnd(s: string): (i: nat)
    ensures i <= |s|
    decreases |s|
  {
    if s == [] || s[0] == NL then 0 else 1 + LineEnd(s[1..])
  }

  /** No newline comes before `LineEnd(s)`. */
  lemma {:induction false} LineEndScan(s: string)
    ensures forall k :: 0 <= k < LineEnd(s) ==> s[k] != NL
    decreases |s|
  {
    if s != [] && s[0] != NL {
      LineEndScan(s[1..]);
      forall k | 0 < k < LineEnd(s)
        ensures s[k] != NL
      {
        assert s[k] == s[1..][k - 1];
      }
    }
  }

  /** A newline sits at `LineEnd(s)` unless it is the end of `s`. */
  lemma {:induction false} LineEndStop(s: string)
    ensures LineEnd(s) < |s| ==> s[LineEnd(s)] == NL
    decreases |s|
  {
    if s != [] && s[0] != NL {
      LineEndStop(s[1..]);
      assert LineEnd(s) < |s| ==> s[LineEnd(s)] == s[1..][LineEnd(s[1..])];
    }
  }

  /**
   * The lines of `s`, without their terminators. A final unterminated
   * chunk is the last line; a final newline does not open an empty line.
   */
  function SplitLines(s: string): seq<string>
    decreases |s|
  {
    if s == [] then []
    else
      var i := LineEnd(s);
      if i == |s| then [s] else [s[..i]] + SplitLines(s[i + 1..])
  }

  /** Each line followed by a newline, concatenated. */
  function JoinLines(ls: seq<string>): (s: string)
    ensures Terminated(s)
    ensures ls == [] <==> s == []
  {
    if ls == [] then [] else ls[0] + [NL] + JoinLines(ls[1..])
  }

  /** `s` is empty or ends with a newline. */
  predicate Terminated(s: string)
  {
    s == [] || s[|s| - 1] == NL
  }

  /** A newline-free line followed by its terminator splits off as one line. */
  lemma SplitFirstLine(line: string, rest: string)
    requires NL !in line
    ensures SplitLines(line + [NL] + rest) == [line] + SplitLines(rest)
  {
    var s := line + [NL] + rest;
    var i := LineEnd(s);
    LineEndScan(s);
    LineEndStop(s);
    assert s[|line|] == NL;
    assert i == |line|;
    assert s[..i] == line;
    assert s[i + 1..] == rest;
  }

  /** Text holding a newline is its first line, the newline, and the rest. */
  lemma FirstLineShape(a: string)
    requires NL in a
    ensures LineEnd(a) < |a|
    ensures a == a[..LineEnd(a)] + [NL] + a[LineEnd(a) + 1..]
    ensures NL !in a[..LineEnd(a)]
  {
    var i := LineEnd(a);
    LineEndScan(a);
    LineEndStop(a);
    var k :| 0 <= k < |a| && a[k] == NL;
    assert i <= k;
    SplitAt(a, i);
    forall j | 0 <= j < i
      ensures a[..i][j] != NL
    {
      assert a[..i][j] == a[j];
    }
  }

  /** Concatenation is associative. */
  lemma Assoc<T>(x: seq<T>, y: seq<T>, z: seq<T>)
    ensures (x + y) + z == x + (y + z)
  {
  }

  /** A sequence is its part before `i`, its element at `i`, and its part after. */
  lemma SplitAt<T>(a: seq<T>, i: nat)
    requires i < |a|
    ensures a == a[..i] + [a[i]] + a[i + 1..]
  {
  }

  /** Removing the first line keeps a text terminated or unterminated. */
  lemma RestKeepsEnding(a: string)
    requires LineEnd(a) < |a|
    ensures Terminated(a[LineEnd(a) + 1..]) <==> Terminated(a)
  {
    var i := LineEnd(a);
    LineEndStop(a);
    var a' := a[i + 1..];
    if a' == [] {
      assert a[|a| - 1] == a[i];
    } else {
      assert a'[|a'| - 1] == a[|a| - 1];
    }
  }

  /** Splitting undoes joining, for lines that hold no newline. */
  lemma {:induction false} SplitJoin(ls: seq<string>)
    requires forall k :: 0 <= k < |ls| ==> NL !in ls[k]
    ensures SplitLines(JoinLines(ls)) == ls
  {
    if ls != [] {
      assert NL !in ls[0];
      SplitFirstLine(ls[0], JoinLines(ls[1..]));
      SplitJoin(ls[1..]);
    }
  }

  /** Splitting distributes over concatenation after terminated text. */
  lemma {:induction false} SplitAppend(a: string, b: string)
    requires Terminated(a)
    ensures SplitLines(a + b) == SplitLines(a) + SplitLines(b)
    decreases |a|
  {
    if a == [] {
      assert a + b == b;
    } else {
      assert a[|a| - 1] in a;
      FirstLineShape(a);
      RestKeepsEnding(a);
      var i := LineEnd(a);
      SplitAppend(a[i + 1..], b);
      SplitAppendStep(a[..i], a[i + 1..], b);
    }
  }

  /** The inductive step of SplitAppend: one more leading line. */
  lemma SplitAppendStep(line: string, rest: string, b: string)
    requires NL !in line
    requires SplitLines(rest + b) == SplitLines(rest) + SplitLines(b)
    ensures SplitLines(line + [NL] + rest + b) == SplitLines(line + [NL] + rest) + SplitLines(b)
  {
    LeadingLine(line, rest, b);
    Assoc([line], SplitLines(rest), SplitLines(b));
  }

  /** A leading line splits off both with and without the appended text. */
  lemma LeadingLine(line: string, rest: string, b: string)
    requires NL !in line
    ensures SplitLines(line + [NL] + rest + b) == [line] + SplitLines(rest + b)
    ensures SplitLines(line + [NL] + rest) == [line] + SplitLines(rest)
  {
    Assoc(line + [NL], rest, b);
    SplitFirstLine(line, rest + b);
    SplitFirstLine(line, rest);
  }

  /** Joining undoes splitting, for terminated text. */
  lemma {:induction false} JoinSplit(s: string)
    requires Terminated(s)
    ensures JoinLines(SplitLines(s)) == s
    decreases |s|
  {
    if s != [] {
      assert s[|s| - 1] in s;
      FirstLineShape(s);
      RestKeepsEnding(s);
      var line, rest := s[..LineEnd(s)], s[LineEnd(s) + 1..];
      SplitFirstLine(line, rest);
      var ls := [line] + SplitLines(rest);
      assert ls[0] == line && ls[1..] == SplitLines(rest);
      JoinSplit(rest);
    }
  }

  /** Terminating an unterminated text adds no line: it closes the last one. */
  lemma {:induction false} CloseLastLine(a: string)
    requires !Terminated(a)
    ensures SplitLines(a + [NL]) == SplitLines(a)
    decreases |a|
  {
    if NL !in a {
      LineEndScan(a);
      LineEndStop(a);
      SplitFirstLine(a, []);
      assert a + [NL] + [] == a + [NL];
      assert SplitLines(a) == [a];
    } else {
      FirstLineShape(a);
      RestKeepsEnding(a);
      var line, a' := a[..LineEnd(a)], a[LineEnd(a) + 1..];
      assert a + [NL] == line + [NL] + (a' + [NL]);
      SplitFirstLine(line, a' + [NL]);
      SplitFirstLine(line, a');
      CloseLastLine(a');
    }
  }
}
