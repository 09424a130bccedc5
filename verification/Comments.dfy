/** The in-place removal of multi-line comments in cpplint's `RemoveMultiLineComments`. */
module Comments {
  import opened Options
  import opened Chars

  const DUMMY := "// dummy"

  // ----- Single lines

  /** `s.strip()`; the lines are Unicode strings. */
  function Strip(s: string): string
    decreases |s|
  {
    if s == [] then []
    else if IsStripped(s[0]) then Strip(s[1..])
    else if IsStripped(s[|s| - 1]) then Strip(s[..|s| - 1])
    else s
  }

  // A star and a slash stand at `i`.
  predicate CloserAt(s: string, i: nat) {
    i + 1 < |s| && s[i] == '*' && s[i + 1] == '/'
  }

  /** The line opens a comment that it does not close. */
  predicate Starts(line: string) {
    var s := Strip(line);
    |s| >= 2 && s[0] == '/' && s[1] == '*' && forall i: nat :: 2 <= i < |s| ==> !CloserAt(s, i)
  }

  /** The line ends with a comment's end. */
  predicate Ends(line: string) {
    var s := Strip(line);
    |s| >= 2 && CloserAt(s, |s| - 2)
  }

  predicate AllStripped(s: string) {
    forall k :: 0 <= k < |s| ==> IsStripped(s[k])
  }

  /** Nothing can be stripped from either end. */
  predicate IsBare(s: string) {
    s == [] || (!IsStripped(s[0]) && !IsStripped(s[|s| - 1]))
  }

  lemma {:induction false} StripLeft(a: string, s: string)
    requires AllStripped(a)
    ensures Strip(a + s) == Strip(s)
  {
    if a == [] {
      assert a + s == s;
    } else {
      StripLeft(a[1..], s);
      assert (a + s)[1..] == a[1..] + s;
    }
  }

  lemma {:induction false} StripRight(s: string, b: string)
    requires s != [] && IsBare(s) && AllStripped(b)
    ensures Strip(s + b) == s
  {
    if b == [] {
      assert s + b == s;
    } else {
      var last := |b| - 1;
      StripRight(s, b[..last]);
      assert (s + b)[..|s + b| - 1] == s + b[..last];
    }
  }

  /** Stripping takes away exactly the white space around the text. */
  lemma StripForm(a: string, s: string, b: string)
    requires AllStripped(a) && IsBare(s) && AllStripped(b)
    ensures Strip(a + (s + b)) == s
  {
    StripLeft(a, s + b);
    if s == [] {
      StripLeft(b, []);
      assert s + b == b == b + [];
    } else {
      StripRight(s, b);
    }
  }

  lemma {:induction false} StripIsBare(line: string)
    ensures IsBare(Strip(line))
    decreases |line|
  {
    if line != [] {
      if IsStripped(line[0]) {
        StripIsBare(line[1..]);
      } else if IsStripped(line[|line| - 1]) {
        StripIsBare(line[..|line| - 1]);
      }
    }
  }

  /** And every line has this form, with what stripping leaves in the middle. */
  lemma {:induction false} StripParts(line: string) returns (a: string, b: string)
    ensures line == a + (Strip(line) + b) && AllStripped(a) && AllStripped(b)
    decreases |line|
  {
    if line == [] {
      a, b := [], [];
    } else if IsStripped(line[0]) {
      var rest := line[1..];
      a, b := StripParts(rest);
      assert line == [line[0]] + rest;
      assert [line[0]] + (a + (Strip(rest) + b)) == ([line[0]] + a) + (Strip(rest) + b);
      a := [line[0]] + a;
    } else if IsStripped(line[|line| - 1]) {
      var rest, c := line[..|line| - 1], line[|line| - 1];
      a, b := StripParts(rest);
      assert line == rest + [c];
      assert (a + (Strip(rest) + b)) + [c] == a + (Strip(rest) + (b + [c]));
      b := b + [c];
    } else {
      a, b := [], [];
      assert [] + (line + []) == line;
    }
  }

  lemma TwoChars(s: string, x: char, y: char, k: nat)
    ensures Occurs(s, [x, y], k) <==> k + 1 < |s| && s[k] == x && s[k + 1] == y
  {
    if k + 1 < |s| { assert s[k..k + 2] == [s[k], s[k + 1]]; }
  }

  /** A line opens a comment exactly when its text starts with a slash and a star and has no end behind them. */
  lemma StartsForm(a: string, s: string, b: string)
    requires AllStripped(a) && IsBare(s) && AllStripped(b)
    ensures Starts(a + (s + b)) <==> Occurs(s, "/*", 0) && forall k: nat :: k >= 2 ==> !Occurs(s, "*/", k)
  {
    StripForm(a, s, b);
    TwoChars(s, '/', '*', 0);
    forall k: nat ensures Occurs(s, "*/", k) <==> CloserAt(s, k) { TwoChars(s, '*', '/', k); }
  }

  /** A line ends a comment exactly when its text ends with a star and a slash. */
  lemma EndsForm(a: string, s: string, b: string)
    requires AllStripped(a) && IsBare(s) && AllStripped(b)
    ensures Ends(a + (s + b)) <==> |s| >= 2 && Occurs(s, "*/", |s| - 2)
  {
    StripForm(a, s, b);
    if |s| >= 2 { TwoChars(s, '*', '/', |s| - 2); }
  }

  lemma DummyStartsNothing()
    ensures !Starts(DUMMY)
  {
    assert DUMMY[1] == '/';
    assert Strip(DUMMY) == DUMMY;
  }

  /** What the removal looks at in a line. */
  datatype Mark = Mark(starts: bool, ends: bool)

  function Marks(lines: seq<string>): (ms: seq<Mark>)
    ensures |ms| == |lines|
  {
    if lines == [] then []
    else Marks(lines[..|lines| - 1]) + [Mark(Starts(lines[|lines| - 1]), Ends(lines[|lines| - 1]))]
  }

  lemma {:induction false} MarkAt(lines: seq<string>, k: nat)
    requires k < |lines|
    ensures Marks(lines)[k] == Mark(Starts(lines[k]), Ends(lines[k]))
    decreases |lines|
  {
    if k < |lines| - 1 { MarkAt(lines[..|lines| - 1], k); }
  }

  // ----- Blocks

  /** The first line at or after `i` that opens a comment, or the number of lines. */
  function NextStart(ms: seq<Mark>, i: nat): (b: nat)
    requires i <= |ms|
    ensures i <= b <= |ms| && (b < |ms| ==> ms[b].starts)
    decreases |ms| - i
  {
    if i == |ms| || ms[i].starts then i else NextStart(ms, i + 1)
  }

  /** The first line at or after `i` that ends one, or the number of lines. */
  function NextEnd(ms: seq<Mark>, i: nat): (e: nat)
    requires i <= |ms|
    ensures i <= e <= |ms| && (e < |ms| ==> ms[e].ends)
    decreases |ms| - i
  {
    if i == |ms| || ms[i].ends then i else NextEnd(ms, i + 1)
  }

  lemma {:induction false} NextStartIsFirst(ms: seq<Mark>, i: nat, k: nat)
    requires i <= k < |ms| && ms[k].starts
    ensures NextStart(ms, i) <= k
    decreases |ms| - i
  {
    if i < k { NextStartIsFirst(ms, i + 1, k); }
  }

  lemma {:induction false} NextEndIsFirst(ms: seq<Mark>, i: nat, k: nat)
    requires i <= k < |ms| && ms[k].ends
    ensures NextEnd(ms, i) <= k
    decreases |ms| - i
  {
    if i < k { NextEndIsFirst(ms, i + 1, k); }
  }

  /** Looking for an end from a later line that is not past the first end finds the same end. */
  lemma {:induction false} NextEndLater(ms: seq<Mark>, i: nat, k: nat)
    requires i <= |ms| && i <= k <= NextEnd(ms, i)
    ensures NextEnd(ms, k) == NextEnd(ms, i)
    decreases |ms| - i
  {
    if i < k { NextEndLater(ms, i + 1, k); }
  }

  /** The lines from `b` to `e`. */
  function Span(b: nat, e: nat): (r: set<nat>)
    ensures forall k: nat :: k in r <==> b <= k <= e
    decreases e + 1 - b
  {
    if b > e then {} else {b} + Span(b + 1, e)
  }

  /** The lines that lie in a comment block found from line `i` on. */
  function Blocks(ms: seq<Mark>, i: nat): (r: set<nat>)
    requires i <= |ms|
    ensures forall k :: k in r ==> i <= k < |ms|
    decreases |ms| - i
  {
    var b := NextStart(ms, i);
    var e := NextEnd(ms, b);
    if e == |ms| then {} else Span(b, e) + Blocks(ms, e + 1)
  }

  /** The line that opens a comment which no later line ends, if the scan meets one. */
  function Unclosed(ms: seq<Mark>, i: nat): Option<nat>
    requires i <= |ms|
    decreases |ms| - i
  {
    var b := NextStart(ms, i);
    var e := NextEnd(ms, b);
    if b == |ms| then None else if e == |ms| then Some(b) else Unclosed(ms, e + 1)
  }

  /** Lines `b` up to but not including `end` replaced. */
  function BlankRange(lines: seq<string>, b: nat, end: nat): (r: seq<string>)
    requires b <= end <= |lines|
    ensures |r| == |lines|
    decreases end - b
  {
    if b == end then lines else BlankRange(lines[b := DUMMY], b + 1, end)
  }

  /** What the removal makes of the lines from `i` on, and whether it reports an unclosed comment. */
  function CleanFrom(lines: seq<string>, i: nat): (seq<string>, Option<nat>)
    requires i <= |lines|
    decreases |lines| - i
  {
    var b := NextStart(Marks(lines), i);
    var e := NextEnd(Marks(lines), b);
    if b == |lines| then (lines, None)
    else if e == |lines| then (lines, Some(b + 1))
    else CleanFrom(BlankRange(lines, b, e + 1), e + 1)
  }

  // ----- The code

  method FindNextMultiLineCommentStart(lines: array<string>, i: nat) returns (b: nat)
    requires i <= lines.Length
    ensures b == NextStart(Marks(lines[..]), i)
  {
    b := i;
    while b < lines.Length
      invariant i <= b <= lines.Length
      invariant NextStart(Marks(lines[..]), b) == NextStart(Marks(lines[..]), i)
    {
      MarkAt(lines[..], b);
      if Starts(lines[b]) {
        return;
      }
      b := b + 1;
    }
  }

  method FindNextMultiLineCommentEnd(lines: array<string>, i: nat) returns (e: nat)
    requires i <= lines.Length
    ensures e == NextEnd(Marks(lines[..]), i)
  {
    e := i;
    while e < lines.Length
      invariant i <= e <= lines.Length
      invariant NextEnd(Marks(lines[..]), e) == NextEnd(Marks(lines[..]), i)
    {
      MarkAt(lines[..], e);
      if Ends(lines[e]) {
        return;
      }
      e := e + 1;
    }
  }

  method RemoveMultiLineCommentsFromRange(lines: array<string>, begin: nat, end: nat)
    requires begin <= end <= lines.Length
    modifies lines
    ensures lines[..] == BlankRange(old(lines[..]), begin, end)
  {
    for i := begin to end
      invariant BlankRange(lines[..], i, end) == BlankRange(old(lines[..]), begin, end)
    {
      assert lines[..][i := DUMMY][..i] == lines[..i];
      ghost var before := lines[..];
      lines[i] := DUMMY;
      assert lines[..] == before[i := DUMMY];
    }
  }

  /** Blanks every block; an unclosed comment is reported by its line number, counted from 1. */
  method RemoveMultiLineComments(lines: array<string>) returns (error: Option<nat>)
    modifies lines
    ensures (lines[..], error) == CleanFrom(old(lines[..]), 0)
  {
    var i := 0;
    while i < lines.Length
      invariant i <= lines.Length && CleanFrom(lines[..], i) == CleanFrom(old(lines[..]), 0)
    {
      var b := FindNextMultiLineCommentStart(lines, i);
      if b >= lines.Length {
        return None;
      }
      var e := FindNextMultiLineCommentEnd(lines, b);
      if e >= lines.Length {
        return Some(b + 1);
      }
      RemoveMultiLineCommentsFromRange(lines, b, e + 1);
      i := e + 1;
    }
    return None;
  }

  // ----- The result, line by line

  lemma {:induction false} BlankRangeAt(lines: seq<string>, b: nat, end: nat, k: nat)
    requires b <= end <= |lines| && k < |lines|
    ensures BlankRange(lines, b, end)[k] == if b <= k < end then DUMMY else lines[k]
    decreases end - b
  {
    if b < end { BlankRangeAt(lines[b := DUMMY], b + 1, end, k); }
  }

  lemma {:induction false} SameSuffix(a: seq<Mark>, b: seq<Mark>, i: nat)
    requires |a| == |b| && i <= |a| && forall k :: i <= k < |a| ==> a[k] == b[k]
    ensures NextStart(a, i) == NextStart(b, i) && NextEnd(a, i) == NextEnd(b, i)
    decreases |a| - i
  {
    if i < |a| { SameSuffix(a, b, i + 1); }
  }

  lemma {:induction false} SameBlocks(a: seq<Mark>, b: seq<Mark>, i: nat)
    requires |a| == |b| && i <= |a| && forall k :: i <= k < |a| ==> a[k] == b[k]
    ensures Blocks(a, i) == Blocks(b, i)
    decreases |a| - i
  {
    SameSuffix(a, b, i);
    SameSuffix(a, b, NextStart(a, i));
    var e := NextEnd(a, NextStart(a, i));
    if e < |a| { SameBlocks(a, b, e + 1); }
  }

  lemma {:induction false} SameUnclosed(a: seq<Mark>, b: seq<Mark>, i: nat)
    requires |a| == |b| && i <= |a| && forall k :: i <= k < |a| ==> a[k] == b[k]
    ensures Unclosed(a, i) == Unclosed(b, i)
    decreases |a| - i
  {
    SameSuffix(a, b, i);
    SameSuffix(a, b, NextStart(a, i));
    var e := NextEnd(a, NextStart(a, i));
    if e < |a| { SameUnclosed(a, b, e + 1); }
  }

  lemma BlankRangeMarks(lines: seq<string>, b: nat, end: nat)
    requires b <= end <= |lines|
    ensures forall k: nat :: end <= k < |lines| ==> Marks(BlankRange(lines, b, end))[k] == Marks(lines)[k]
  {
    forall k: nat | end <= k < |lines| ensures Marks(BlankRange(lines, b, end))[k] == Marks(lines)[k] {
      BlankRangeAt(lines, b, end, k);
      MarkAt(lines, k);
      MarkAt(BlankRange(lines, b, end), k);
    }
  }

  /** Blanking lines before `end` changes nothing that the scan finds from there on. */
  lemma SameFromHere(lines: seq<string>, b: nat, end: nat)
    requires b <= end <= |lines|
    ensures var ms, next := Marks(lines), Marks(BlankRange(lines, b, end));
            Blocks(next, end) == Blocks(ms, end) && Unclosed(next, end) == Unclosed(ms, end)
  {
    BlankRangeMarks(lines, b, end);
    SameBlocks(Marks(BlankRange(lines, b, end)), Marks(lines), end);
    SameUnclosed(Marks(BlankRange(lines, b, end)), Marks(lines), end);
  }

  /** The result keeps every line outside the blocks and replaces every line inside. */
  lemma {:induction false} CleanFromAt(lines: seq<string>, i: nat, k: nat)
    requires i <= |lines| && k < |lines|
    ensures |CleanFrom(lines, i).0| == |lines|
    ensures CleanFrom(lines, i).0[k] == if k in Blocks(Marks(lines), i) then DUMMY else lines[k]
    decreases |lines| - i
  {
    var b := NextStart(Marks(lines), i);
    var e := NextEnd(Marks(lines), b);
    if e < |lines| {
      CleanFromAt(BlankRange(lines, b, e + 1), e + 1, k);
      BlankRangeAt(lines, b, e + 1, k);
      SameFromHere(lines, b, e + 1);
    }
  }

  lemma CleanFromStep(lines: seq<string>, i: nat, b: nat, e: nat)
    requires i <= |lines| && b == NextStart(Marks(lines), i) && e == NextEnd(Marks(lines), b) && e < |lines|
    ensures CleanFrom(lines, i) == CleanFrom(BlankRange(lines, b, e + 1), e + 1)
    ensures Unclosed(Marks(lines), i) == Unclosed(Marks(lines), e + 1)
  {
  }

  lemma CleanFromLast(lines: seq<string>, i: nat)
    requires i <= |lines| && NextEnd(Marks(lines), NextStart(Marks(lines), i)) == |lines|
    ensures CleanFrom(lines, i).1 == LineNumber(Unclosed(Marks(lines), i))
  {
  }

  function LineNumber(index: Option<nat>): Option<nat> {
    if index.Some? then Some(index.value + 1) else None
  }

  /** The report names the first opening line that is never ended, counting from 1. */
  lemma {:induction false} CleanFromReports(lines: seq<string>, i: nat)
    requires i <= |lines|
    ensures CleanFrom(lines, i).1 == LineNumber(Unclosed(Marks(lines), i))
    decreases |lines| - i
  {
    var b := NextStart(Marks(lines), i);
    var e := NextEnd(Marks(lines), b);
    if e < |lines| {
      var next := BlankRange(lines, b, e + 1);
      CleanFromReports(next, e + 1);
      ReportsAfter(lines, i, b, e, next);
    } else {
      CleanFromLast(lines, i);
    }
  }

  lemma ReportsAfter(lines: seq<string>, i: nat, b: nat, e: nat, next: seq<string>)
    requires i <= |lines| && b == NextStart(Marks(lines), i) && e == NextEnd(Marks(lines), b) && e < |lines|
    requires next == BlankRange(lines, b, e + 1) && CleanFrom(next, e + 1).1 == LineNumber(Unclosed(Marks(next), e + 1))
    ensures CleanFrom(lines, i).1 == LineNumber(Unclosed(Marks(lines), i))
  {
    CleanFromStep(lines, i, b, e);
    SameFromHere(lines, b, e + 1);
  }

  // ----- What blocks are

  /** A block runs from an opening line to the first ending line at or after it. */
  ghost predicate IsBlock(ms: seq<Mark>, b: nat, e: nat) {
    b <= e < |ms| && ms[b].starts && NextEnd(ms, b) == e
  }

  /** Every line of the blocks lies in a block that belongs to them as a whole. */
  lemma {:induction false} WholeBlocks(ms: seq<Mark>, i: nat, k: nat) returns (b: nat, e: nat)
    requires i <= |ms| && k in Blocks(ms, i)
    ensures IsBlock(ms, b, e) && b <= k <= e && Span(b, e) <= Blocks(ms, i)
    decreases |ms| - i
  {
    b := NextStart(ms, i);
    e := NextEnd(ms, b);
    if !(b <= k <= e) {
      b, e := WholeBlocks(ms, e + 1, k);
    }
  }

  /** An opening line is in the blocks exactly when some line at or after it ends a comment. */
  lemma {:induction false} OpeningsBlanked(ms: seq<Mark>, i: nat, k: nat)
    requires i <= k < |ms| && ms[k].starts
    ensures k in Blocks(ms, i) <==> NextEnd(ms, k) < |ms|
    decreases |ms| - i
  {
    var b := NextStart(ms, i);
    var e := NextEnd(ms, b);
    NextStartIsFirst(ms, i, k);
    if e < k {
      OpeningsBlanked(ms, e + 1, k);
    } else {
      NextEndLater(ms, b, k);
    }
  }

  /**
    The first comment of a file: the lines before it stay, and it is blanked from
    its opening line to the first line that ends a comment.
  */
  lemma FirstBlock(lines: seq<string>, b: nat, e: nat, k: nat)
    requires b <= e < |lines| && Starts(lines[b]) && Ends(lines[e]) && k <= e
    requires forall i :: 0 <= i < b ==> !Starts(lines[i])
    requires forall i :: b <= i < e ==> !Ends(lines[i])
    ensures |CleanFrom(lines, 0).0| == |lines|
    ensures CleanFrom(lines, 0).0[k] == if b <= k then "// dummy" else lines[k]
  {
    FirstSpan(lines, b, e);
    CleanFromAt(lines, 0, k);
  }

  lemma FirstSpan(lines: seq<string>, b: nat, e: nat)
    requires b <= e < |lines| && Starts(lines[b]) && Ends(lines[e])
    requires forall i :: 0 <= i < b ==> !Starts(lines[i])
    requires forall i :: b <= i < e ==> !Ends(lines[i])
    ensures forall k: nat :: k <= e ==> (k in Blocks(Marks(lines), 0) <==> b <= k)
  {
    var ms := Marks(lines);
    MarkAt(lines, b);
    MarkAt(lines, e);
    NextStartIsFirst(ms, 0, b);
    NextEndIsFirst(ms, b, e);
    MarkAt(lines, NextStart(ms, 0));
    MarkAt(lines, NextEnd(ms, b));
    assert NextStart(ms, 0) == b && NextEnd(ms, b) == e;
  }

  // ----- Running it again

  function Cleaned(lines: seq<string>): (r: seq<string>) {
    CleanFrom(lines, 0).0
  }

  lemma CleanedLength(lines: seq<string>)
    ensures |Cleaned(lines)| == |lines|
  {
    if lines != [] { CleanFromAt(lines, 0, 0); }
  }

  /** Past an opening line that no line ends there is no block. */
  lemma BlocksStop(ms: seq<Mark>, k: nat, j: nat)
    requires k < |ms| && NextEnd(ms, k) == |ms| && k !in Blocks(ms, 0) && j in Blocks(ms, 0)
    ensures j < k
  {
    var b, e := WholeBlocks(ms, 0, j);
    if j >= k { NextEndIsFirst(ms, k, e); }
  }

  /** In the result an opening line is left only where the comment is never ended. */
  lemma OpeningsLeft(lines: seq<string>, k: nat)
    requires k < |Cleaned(lines)| == |lines| && Starts(Cleaned(lines)[k])
    ensures NextEnd(Marks(Cleaned(lines)), k) == |lines|
  {
    var ms, c := Marks(lines), Cleaned(lines);
    DummyStartsNothing();
    CleanFromAt(lines, 0, k);
    MarkAt(lines, k);
    OpeningsBlanked(ms, 0, k);
    forall j: nat | k <= j < |lines| ensures ms[j] == Marks(c)[j] {
      if j in Blocks(ms, 0) { BlocksStop(ms, k, j); }
      CleanFromAt(lines, 0, j);
      MarkAt(lines, j);
      MarkAt(c, j);
    }
    SameSuffix(ms, Marks(c), k);
  }

  /** A second run changes nothing, on the unclosed path too. */
  lemma CleanedTwice(lines: seq<string>)
    ensures Cleaned(Cleaned(lines)) == Cleaned(lines)
  {
    var c := Cleaned(lines);
    CleanedLength(lines);
    CleanedLength(c);
    forall k: nat | k < |c| ensures Cleaned(c)[k] == c[k] {
      CleanFromAt(c, 0, k);
      if k in Blocks(Marks(c), 0) {
        var b, e := WholeBlocks(Marks(c), 0, k);
        MarkAt(c, b);
        OpeningsLeft(lines, b);
      }
    }
  }

  /** Nothing is reported exactly when every comment opened is ended. */
  lemma {:induction false} ReportedIffUnended(ms: seq<Mark>, i: nat)
    requires i <= |ms|
    ensures Unclosed(ms, i) == None <==> forall k :: i <= k < |ms| && ms[k].starts ==> NextEnd(ms, k) < |ms|
    decreases |ms| - i
  {
    var b := NextStart(ms, i);
    var e := NextEnd(ms, b);
    forall k | i <= k < |ms| && ms[k].starts ensures b <= k && (k <= e ==> NextEnd(ms, k) == e) {
      NextStartIsFirst(ms, i, k);
      if k <= e { NextEndLater(ms, b, k); }
    }
    if e < |ms| { ReportedIffUnended(ms, e + 1); }
  }
}
