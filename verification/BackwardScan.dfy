/**
  cpplint's backward bracket matcher, `FindStartOfExpressionInLine` and
  `ReverseCloseExpression`.  It is not the mirror image of the forward matcher:
  its guesses about `<` and `>` differ, and on some of them it steps over one
  extra character without looking at it.
*/
module BackwardScan {
  import opened Options
  import opened Chars
  import opened Dyck
  import opened Lines
  import opened ForwardScan

  // ----- The behaviour on one character, one line and several lines

  /** The pattern `\s>=\s` at the start of `s`. */
  predicate SpacedGreaterEqual(s: string) {
    |s| >= 4 && IsSpace(s[0]) && s[1] == '>' && s[2] == '=' && IsSpace(s[3])
  }

  /** The operators on which the scan also steps over the character before. */
  predicate Skips(line: string, i: nat)
    requires i < |line|
  {
    && i > 0
    && (if line[i] == '<' then line[i - 1] == '<'
        else
          && line[i] == '>'
          && (line[i - 1] == '-' || SpacedGreaterEqual(line[i - 1..]) || EndsWithOperator(line[..i])))
  }

  function StartStep(line: string, i: nat, stack: seq<char>): Scan
    requires i < |line|
  {
    var c := line[i];
    if IsClose(c) || c == '>' then Pending(stack + [c])
    else if c == '<' then
      if stack == [] || Last(stack) != '>' then Pending(stack)
      else if |stack| == 1 then Found(i)
      else Pending(Init(stack))
    else if IsOpen(c) then
      var s := PopAll(stack, '>');
      if s == [] || !IsClose(Last(s)) || OpenOf(Last(s)) != c then Broken
      else if |s| == 1 then Found(i)
      else Pending(Init(s))
    else if c == ';' then
      var s := PopAll(stack, '>');
      if s == [] then Broken else Pending(s)
    else Pending(stack)
  }

  function ScanStart(line: string, i: int, stack: seq<char>): Scan
    requires -1 <= i < |line|
    decreases i
  {
    if i < 0 then Pending(stack)
    else if Skips(line, i) then ScanStart(line, i - 2, stack)
    else
      var r := StartStep(line, i, stack);
      if r.Pending? then ScanStart(line, i - 1, r.stack) else r
  }

  function OpenFrom(lines: seq<string>, n: nat, i: int, stack: seq<char>): Place
    requires n < |lines| && -1 <= i < |lines[n]|
    decreases n
  {
    match ScanStart(lines[n], i, stack)
    case Found(e) => Place(lines[n], n, e)
    case Broken => Place(lines[n], 0, -1)
    case Pending(s) =>
      if s != [] && n > 0 then OpenFrom(lines, n - 1, |lines[n - 1]| - 1, s) else Place(lines[n], 0, -1)
  }

  function Open(lines: seq<string>, n: nat, pos: nat): Place
    requires InLine(lines, n, pos)
  {
    if IsClose(lines[n][pos]) || lines[n][pos] == '>' then OpenFrom(lines, n, pos, [])
    else Place(lines[n], 0, -1)
  }

  // ----- The code

  method FindStartOfExpressionInLine(line: string, endpos: int, stack0: seq<char>) returns (r: Scan)
    requires -1 <= endpos < |line|
    ensures r == ScanStart(line, endpos, stack0)
  {
    var stack := stack0;
    var i := endpos;
    while i >= 0
      invariant -1 <= i < |line|
      invariant ScanStart(line, i, stack) == ScanStart(line, endpos, stack0)
    {
      var skipped;
      skipped, r := FindStartStep(line, i, stack);
      if skipped {
        i := i - 1;
      } else if r.Pending? {
        stack := r.stack;
      } else {
        return;
      }
      i := i - 1;
    }
    return Pending(stack);
  }

  /** The body of the loop: whether the character before is stepped over, and if not what the character does. */
  method FindStartStep(line: string, i: nat, stack0: seq<char>) returns (skipped: bool, r: Scan)
    requires i < |line|
    ensures skipped <==> Skips(line, i)
    ensures !skipped ==> r == StartStep(line, i, stack0)
  {
    var stack := stack0;
    var c := line[i];
    if IsClose(c) {
      stack := stack + [c];
    } else if c == '>' {
      if i > 0 && (line[i - 1] == '-' || SpacedGreaterEqual(line[i - 1..]) || EndsWithOperator(line[..i])) {
        return true, Pending(stack);
      }
      stack := stack + ['>'];
    } else if c == '<' {
      if i > 0 && line[i - 1] == '<' {
        return true, Pending(stack);
      }
      if stack != [] && stack[|stack| - 1] == '>' {
        stack := stack[..|stack| - 1];
        if stack == [] { return false, Found(i); }
      }
    } else if IsOpen(c) {
      stack := PopAngles(stack, '>');
      if stack == [] { return false, Broken; }
      var top := stack[|stack| - 1];
      if !((c == '(' && top == ')') || (c == '[' && top == ']') || (c == '{' && top == '}')) {
        return false, Broken;
      }
      stack := stack[..|stack| - 1];
      if stack == [] { return false, Found(i); }
    } else if c == ';' {
      stack := PopAngles(stack, '>');
      if stack == [] { return false, Broken; }
    }
    return false, Pending(stack);
  }

  method ReverseCloseExpression(lines: seq<string>, linenum0: nat, pos: nat) returns (r: Place)
    requires InLine(lines, linenum0, pos)
    ensures r == Open(lines, linenum0, pos)
    ensures IsClose(lines[linenum0][pos]) ==> AtMatchingOpen(lines, linenum0, pos, r)
  {
    var line := lines[linenum0];
    if !(IsClose(line[pos]) || line[pos] == '>') {
      return Place(line, 0, -1);
    }
    r := SearchBackward(lines, linenum0, pos);
    if IsClose(line[pos]) { OpenIsMatch(lines, linenum0, pos); }
  }

  /** The search from the starting line up to the first line. */
  method SearchBackward(lines: seq<string>, linenum0: nat, pos: nat) returns (r: Place)
    requires InLine(lines, linenum0, pos)
    ensures r == OpenFrom(lines, linenum0, pos, [])
  {
    var linenum := linenum0;
    var line := lines[linenum];
    var scan := FindStartOfExpressionInLine(line, pos, []);
    if scan.Found? {
      return Place(line, linenum, scan.pos);
    }
    while scan.Pending? && scan.stack != [] && linenum > 0
      invariant linenum < |lines| && line == lines[linenum]
      invariant !scan.Found?
      invariant OpenFrom(lines, linenum0, pos, []) ==
                if scan.Pending? && scan.stack != [] && linenum > 0
                then OpenFrom(lines, linenum - 1, |lines[linenum - 1]| - 1, scan.stack)
                else Place(line, 0, -1)
      decreases linenum
    {
      linenum := linenum - 1;
      line := lines[linenum];
      scan := FindStartOfExpressionInLine(line, |line| - 1, scan.stack);
      if scan.Found? {
        return Place(line, linenum, scan.pos);
      }
    }
    return Place(line, 0, -1);
  }

  // ----- Neither the guesses nor the skipped characters show

  /** A character that the scan steps over unseen is never a bracket. */
  lemma SkippedIsNoBracket(line: string, i: nat)
    requires i < |line| && Skips(line, i)
    ensures i > 0 && !IsOpen(line[i - 1]) && !IsClose(line[i - 1]) && !IsOpen(line[i]) && !IsClose(line[i])
  {
    if line[i] == '>' && line[i - 1] != '-' && !SpacedGreaterEqual(line[i - 1..]) {
      OperatorTail(line[..i]);
    }
  }

  /** A backward stack whose outermost entry is not an angle bracket. */
  predicate RootedBack(stack: seq<char>) {
    && stack != [] && IsClose(stack[0])
    && forall k :: 0 <= k < |stack| ==> IsClose(stack[k]) || stack[k] == '>'
  }

  lemma {:induction false} RootedBackPlain(stack: seq<char>)
    requires RootedBack(stack)
    ensures Plain(stack) != Empty
    ensures |PopAll(stack, '>')| > 0 && RootedBack(PopAll(stack, '>'))
  {
    if |stack| > 1 { RootedBackPlain(Init(stack)); }
  }

  lemma RootedBackInit(stack: seq<char>)
    requires RootedBack(stack) && (Last(stack) == '>' || |stack| > 1)
    ensures |stack| > 1 && RootedBack(Init(stack)) && Plain(Init(stack)) != Empty
    ensures Last(stack) == '>' ==> Plain(Init(stack)) == Plain(stack)
    ensures Last(stack) != '>' ==> Plain(stack) == Push(Plain(Init(stack)), OpenOf(Last(stack)))
  {
    RootedBackPlain(Init(stack));
  }

  ghost predicate StepsPlainBack(line: string, i: nat, stack: seq<char>)
    requires i < |line|
  {
    match StartStep(line, i, stack)
    case Found(e) => e == i && StepBack(Plain(stack), line[i]) == Some(Empty)
    case Broken => StepBack(Plain(stack), line[i]) == None
    case Pending(s) => RootedBack(s) && Plain(s) != Empty && StepBack(Plain(stack), line[i]) == Some(Plain(s))
  }

  lemma StartStepOpening(line: string, i: nat, stack: seq<char>)
    requires i < |line| && RootedBack(stack) && IsOpen(line[i])
    ensures StepsPlainBack(line, i, stack)
  {
    RootedBackPlain(stack);
    PopAllPlain(stack, '>');
    var s := PopAll(stack, '>');
    assert Plain(s) == Push(Plain(Init(s)), OpenOf(Last(s)));
    if |s| > 1 { RootedBackInit(s); }
  }

  /** On a rooted stack one step of the code is one step of plain matching. */
  lemma StartStepPlain(line: string, i: nat, stack: seq<char>)
    requires i < |line| && RootedBack(stack)
    ensures StepsPlainBack(line, i, stack)
  {
    var c := line[i];
    RootedBackPlain(stack);
    if IsClose(c) || c == '>' { PlainPush(stack, c); }
    if IsOpen(c) {
      StartStepOpening(line, i, stack);
    } else if c == ';' {
      PopAllPlain(stack, '>');
      RootedBackPlain(PopAll(stack, '>'));
    } else if c == '<' && Last(stack) == '>' {
      RootedBackInit(stack);
    }
  }

  lemma TwoNonBrackets(t: string, j: nat, a: Stack)
    requires 0 < j < |t| && a != Empty
    requires !IsOpen(t[j]) && !IsClose(t[j]) && !IsOpen(t[j - 1]) && !IsClose(t[j - 1])
    ensures FindOpen(t, j, a) == FindOpen(t, j - 2, a)
  {
    assert FindOpen(t, j, a) == FindOpen(t, j - 1, a);
  }

  /** `line` stands in `t` at `off`. */
  predicate StandsAt(line: string, t: string, off: nat) {
    off + |line| <= |t| && forall k :: 0 <= k < |line| ==> t[off + k] == line[k]
  }

  /** The scan of the line from `i` down is the plain scan of its place in the text. */
  ghost predicate ScansPlain(line: string, i: int, stack: seq<char>, t: string, off: nat)
    requires -1 <= i < |line| && off + |line| <= |t|
  {
    match ScanStart(line, i, stack)
    case Found(e) => e <= i && FindOpen(t, off + i, Plain(stack)) == Some(off + e)
    case Broken => FindOpen(t, off + i, Plain(stack)) == None
    case Pending(s) =>
      RootedBack(s) && FindOpen(t, off + i, Plain(stack)) == FindOpen(t, off - 1, Plain(s))
  }

  lemma SkipScansPlain(line: string, i: nat, stack: seq<char>, t: string, off: nat)
    requires i < |line| && Skips(line, i) && RootedBack(stack) && StandsAt(line, t, off)
    requires i > 0 && ScansPlain(line, i - 2, stack, t, off)
    ensures ScansPlain(line, i, stack, t, off)
  {
    SkippedIsNoBracket(line, i);
    RootedBackPlain(stack);
    assert t[off + i] == line[i] && t[off + (i - 1)] == line[i - 1];
    TwoNonBrackets(t, off + i, Plain(stack));
  }

  lemma StepScansPlain(line: string, i: nat, stack: seq<char>, t: string, off: nat)
    requires i < |line| && !Skips(line, i) && RootedBack(stack) && StandsAt(line, t, off)
    requires var r := StartStep(line, i, stack); r.Pending? ==> ScansPlain(line, i - 1, r.stack, t, off)
    ensures ScansPlain(line, i, stack, t, off)
  {
    assert t[off + i] == line[i];
    StartStepPlain(line, i, stack);
  }

  lemma {:induction false} ScanStartPlain(line: string, i: int, stack: seq<char>, t: string, off: nat)
    requires -1 <= i < |line| && RootedBack(stack) && StandsAt(line, t, off)
    ensures ScansPlain(line, i, stack, t, off)
    decreases i
  {
    if i >= 0 {
      if Skips(line, i) {
        ScanStartPlain(line, i - 2, stack, t, off);
        SkipScansPlain(line, i, stack, t, off);
      } else {
        var r := StartStep(line, i, stack);
        if r.Pending? {
          StartStepPlain(line, i, stack);
          ScanStartPlain(line, i - 1, r.stack, t, off);
        }
        StepScansPlain(line, i, stack, t, off);
      }
    }
  }

  lemma {:induction false} OpenFromPlain(lines: seq<string>, n: nat, i: int, stack: seq<char>)
    requires n < |lines| && -1 <= i < |lines[n]| && RootedBack(stack)
    requires Offset(lines, n) + i < |Flat(lines)|
    ensures var r := OpenFrom(lines, n, i, stack);
            match FindOpen(Flat(lines), Offset(lines, n) + i, Plain(stack))
            case None => r.pos == -1 && r.linenum == 0
            case Some(p) =>
              && r.linenum <= n && r.line == lines[r.linenum] && 0 <= r.pos < |r.line|
              && p == Offset(lines, r.linenum) + r.pos
    decreases n
  {
    FlatLine(lines, n);
    ScanStartPlain(lines[n], i, stack, Flat(lines), Offset(lines, n));
    var scan := ScanStart(lines[n], i, stack);
    if scan.Pending? && n > 0 {
      OpenFromPlain(lines, n - 1, |lines[n - 1]| - 1, scan.stack);
    }
  }

  /** The answer points at the matching bracket, or there is none. */
  ghost predicate AtMatchingOpen(lines: seq<string>, n: nat, pos: nat, r: Place)
    requires InLine(lines, n, pos)
  {
    var q := Offset(lines, n) + pos;
    if r.pos == -1 then
      r.linenum == 0 && forall p :: !Matched(Flat(lines), p, q)
    else
      && r.linenum <= n && r.line == lines[r.linenum] && 0 <= r.pos < |r.line|
      && Matched(Flat(lines), Offset(lines, r.linenum) + r.pos, q)
  }

  lemma OpenStart(lines: seq<string>, n: nat, pos: nat)
    requires InLine(lines, n, pos) && IsClose(lines[n][pos])
    ensures Open(lines, n, pos) == OpenFrom(lines, n, pos - 1, [lines[n][pos]])
  {
    assert [] + [lines[n][pos]] == [lines[n][pos]];
    assert ScanStart(lines[n], pos, []) == ScanStart(lines[n], pos - 1, [lines[n][pos]]);
  }

  lemma FindOpenStart(t: string, q: nat)
    requires q < |t| && IsClose(t[q])
    ensures Plain([t[q]]) == Push(Empty, OpenOf(t[q]))
    ensures FindOpen(t, q, Empty) == FindOpen(t, q - 1, Push(Empty, OpenOf(t[q])))
  {
    assert [] + [t[q]] == [t[q]];
    PlainPush([], t[q]);
  }

  /** From `)`, `]` or `}` the backward matcher finds the match in the whole text, and fails only without one. */
  lemma OpenIsMatch(lines: seq<string>, n: nat, pos: nat)
    requires InLine(lines, n, pos) && IsClose(lines[n][pos])
    ensures AtMatchingOpen(lines, n, pos, Open(lines, n, pos))
  {
    FlatLine(lines, n);
    assert Flat(lines)[Offset(lines, n) + pos] == lines[n][pos];
    OpenStart(lines, n, pos);
    FindOpenStart(Flat(lines), Offset(lines, n) + pos);
    OpenFromPlain(lines, n, pos - 1, [lines[n][pos]]);
    FindOpenCorrect(Flat(lines), Offset(lines, n) + pos);
  }
}
