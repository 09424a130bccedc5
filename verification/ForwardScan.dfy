/**
  cpplint's forward bracket matcher, `FindEndOfExpressionInLine` and
  `CloseExpression`, which also guesses at template angle brackets.

  The functions give the behaviour of the code one character at a time, the
  methods are the code's own loops, and the lemmas prove that on `(`, `[` and
  `{` the guesses about `<` and `>` never show in the answer.
*/
module ForwardScan {
  import opened Options
  import opened Chars
  import opened Dyck
  import opened Lines

  /** `(pos, None)`, `(-1, None)` and `(-1, stack)` in the source. */
  datatype Scan = Found(pos: nat) | Broken | Pending(stack: seq<char>)

  /** A line, its number and a column, the column being -1 for no answer. */
  datatype Place = Place(line: string, linenum: nat, pos: int)

  function Last(s: seq<char>): char
    requires s != []
  {
    s[|s| - 1]
  }

  function Init(s: seq<char>): seq<char>
    requires s != []
  {
    s[..|s| - 1]
  }

  /** Pop every `c` from the top of the stack. */
  function PopAll(stack: seq<char>, c: char): (r: seq<char>)
    ensures r <= stack
    ensures r == [] || Last(r) != c
  {
    if stack != [] && Last(stack) == c then PopAll(Init(stack), c) else stack
  }

  // ----- The behaviour on one character, one line and several lines

  function EndStep(line: string, i: nat, stack: seq<char>): Scan
    requires i < |line|
  {
    var c := line[i];
    if IsOpen(c) then Pending(stack + [c])
    else if c == '<' then
      if i > 0 && line[i - 1] == '<' then
        if stack == [] || Last(stack) != '<' then Pending(stack)
        else if |stack| == 1 then Broken
        else Pending(Init(stack))
      else if i > 0 && EndsWithOperator(line[..i]) then Pending(stack)
      else Pending(stack + ['<'])
    else if IsClose(c) then
      var s := PopAll(stack, '<');
      if s == [] || Last(s) != OpenOf(c) then Broken
      else if |s| == 1 then Found(i + 1)
      else Pending(Init(s))
    else if c == '>' then
      if i > 0 && (line[i - 1] == '-' || EndsWithOperator(line[..i - 1])) then Pending(stack)
      else if stack == [] || Last(stack) != '<' then Pending(stack)
      else if |stack| == 1 then Found(i + 1)
      else Pending(Init(stack))
    else if c == ';' then
      var s := PopAll(stack, '<');
      if s == [] then Broken else Pending(s)
    else Pending(stack)
  }

  function ScanEnd(line: string, i: nat, stack: seq<char>): Scan
    requires i <= |line|
    decreases |line| - i
  {
    if i == |line| then Pending(stack)
    else
      var r := EndStep(line, i, stack);
      if r.Pending? then ScanEnd(line, i + 1, r.stack) else r
  }

  function CloseFrom(lines: seq<string>, n: nat, pos: nat, stack: seq<char>): Place
    requires n < |lines| && pos <= |lines[n]|
    decreases |lines| - n
  {
    match ScanEnd(lines[n], pos, stack)
    case Found(e) => Place(lines[n], n, e)
    case Broken => Place(lines[n], |lines|, -1)
    case Pending(s) =>
      if s != [] && n < |lines| - 1 then CloseFrom(lines, n + 1, 0, s) else Place(lines[n], |lines|, -1)
  }

  /** The test that rejects a start: not an opening symbol, or the operators `<<` and `<=`. */
  predicate NoExpressionStart(line: string, pos: nat)
    requires pos < |line|
  {
    || !(IsOpen(line[pos]) || line[pos] == '<')
    || (line[pos] == '<' && pos + 1 < |line| && (line[pos + 1] == '<' || line[pos + 1] == '='))
  }

  function Close(lines: seq<string>, n: nat, pos: nat): Place
    requires InLine(lines, n, pos)
  {
    if NoExpressionStart(lines[n], pos) then Place(lines[n], |lines|, -1) else CloseFrom(lines, n, pos, [])
  }

  // ----- The code

  method PopAngles(stack: seq<char>, c: char) returns (r: seq<char>)
    ensures r == PopAll(stack, c)
  {
    r := stack;
    while r != [] && r[|r| - 1] == c
      invariant PopAll(r, c) == PopAll(stack, c)
      decreases |r|
    {
      r := r[..|r| - 1];
    }
  }

  method FindEndOfExpressionInLine(line: string, startpos: nat, stack0: seq<char>) returns (r: Scan)
    requires startpos <= |line|
    ensures r == ScanEnd(line, startpos, stack0)
  {
    var stack := stack0;
    for i := startpos to |line|
      invariant ScanEnd(line, i, stack) == ScanEnd(line, startpos, stack0)
    {
      var c := line[i];
      if IsOpen(c) {
        stack := stack + [c];
      } else if c == '<' {
        if i > 0 && line[i - 1] == '<' {
          if stack != [] && stack[|stack| - 1] == '<' {
            stack := stack[..|stack| - 1];
            if stack == [] { return Broken; }
          }
        } else if i > 0 && EndsWithOperator(line[0..i]) {
          continue;
        } else {
          stack := stack + ['<'];
        }
      } else if IsClose(c) {
        stack := PopAngles(stack, '<');
        if stack == [] { return Broken; }
        if stack[|stack| - 1] == OpenOf(c) {
          stack := stack[..|stack| - 1];
          if stack == [] { return Found(i + 1); }
        } else {
          return Broken;
        }
      } else if c == '>' {
        if i > 0 && (line[i - 1] == '-' || EndsWithOperator(line[0..i - 1])) { continue; }
        if stack != [] && stack[|stack| - 1] == '<' {
          stack := stack[..|stack| - 1];
          if stack == [] { return Found(i + 1); }
        }
      } else if c == ';' {
        stack := PopAngles(stack, '<');
        if stack == [] { return Broken; }
      }
    }
    return Pending(stack);
  }

  method CloseExpression(lines: seq<string>, linenum0: nat, pos: nat) returns (r: Place)
    requires InLine(lines, linenum0, pos)
    ensures r == Close(lines, linenum0, pos)
    ensures IsOpen(lines[linenum0][pos]) ==> AtMatchingClose(lines, linenum0, pos, r)
  {
    if IsOpen(lines[linenum0][pos]) { CloseIsMatch(lines, linenum0, pos); }
    var linenum := linenum0;
    var line := lines[linenum];
    if NoExpressionStart(line, pos) {
      return Place(line, |lines|, -1);
    }
    var scan := FindEndOfExpressionInLine(line, pos, []);
    if scan.Found? {
      return Place(line, linenum, scan.pos);
    }
    while scan.Pending? && scan.stack != [] && linenum < |lines| - 1
      invariant linenum < |lines| && line == lines[linenum]
      invariant !scan.Found?
      invariant Close(lines, linenum0, pos) ==
                if scan.Pending? && scan.stack != [] && linenum < |lines| - 1
                then CloseFrom(lines, linenum + 1, 0, scan.stack)
                else Place(line, |lines|, -1)
      decreases |lines| - linenum
    {
      linenum := linenum + 1;
      line := lines[linenum];
      scan := FindEndOfExpressionInLine(line, 0, scan.stack);
      if scan.Found? {
        return Place(line, linenum, scan.pos);
      }
    }
    return Place(line, |lines|, -1);
  }

  // ----- The angle-bracket guesses do not show

  /** The brackets of a stack that are not angle brackets, as the openings they stand for. */
  function Plain(stack: seq<char>): Stack {
    if stack == [] then Empty
    else
      var c := Last(stack);
      if c == '<' || c == '>' then Plain(Init(stack))
      else Push(Plain(Init(stack)), if IsClose(c) then OpenOf(c) else c)
  }

  /** A forward stack whose outermost entry is not an angle bracket. */
  predicate Rooted(stack: seq<char>) {
    && stack != [] && IsOpen(stack[0])
    && forall k :: 0 <= k < |stack| ==> IsOpen(stack[k]) || stack[k] == '<'
  }

  lemma {:induction false} PopAllPlain(stack: seq<char>, c: char)
    requires c == '<' || c == '>'
    ensures Plain(PopAll(stack, c)) == Plain(stack)
  {
    if stack != [] && Last(stack) == c { PopAllPlain(Init(stack), c); }
  }

  lemma PlainPush(stack: seq<char>, c: char)
    ensures Plain(stack + [c]) ==
            if c == '<' || c == '>' then Plain(stack)
            else Push(Plain(stack), if IsClose(c) then OpenOf(c) else c)
  {
    assert Init(stack + [c]) == stack;
  }

  lemma {:induction false} RootedPlain(stack: seq<char>)
    requires Rooted(stack)
    ensures Plain(stack) != Empty
    ensures |PopAll(stack, '<')| > 0 && Rooted(PopAll(stack, '<'))
  {
    if |stack| > 1 { RootedPlain(Init(stack)); }
  }

  /** Popping an angle bracket, or a bracket above the root, leaves the stack rooted. */
  lemma RootedInit(stack: seq<char>)
    requires Rooted(stack) && (Last(stack) == '<' || |stack| > 1)
    ensures |stack| > 1 && Rooted(Init(stack)) && Plain(Init(stack)) != Empty
    ensures Last(stack) == '<' ==> Plain(Init(stack)) == Plain(stack)
    ensures Last(stack) != '<' ==> Plain(stack) == Push(Plain(Init(stack)), Last(stack))
  {
    RootedPlain(Init(stack));
  }

  lemma EndStepClosing(line: string, i: nat, stack: seq<char>)
    requires i < |line| && Rooted(stack) && IsClose(line[i])
    ensures StepsPlain(line, i, stack)
  {
    RootedPlain(stack);
    PopAllPlain(stack, '<');
    var s := PopAll(stack, '<');
    assert Plain(s) == Push(Plain(Init(s)), Last(s));
    if |s| > 1 { RootedInit(s); }
  }

  ghost predicate StepsPlain(line: string, i: nat, stack: seq<char>)
    requires i < |line|
  {
    match EndStep(line, i, stack)
    case Found(e) => e == i + 1 && Step(Plain(stack), line[i]) == Some(Empty)
    case Broken => Step(Plain(stack), line[i]) == None
    case Pending(s) => Rooted(s) && Plain(s) != Empty && Step(Plain(stack), line[i]) == Some(Plain(s))
  }

  /** On a rooted stack one step of the code is one step of plain matching. */
  lemma EndStepPlain(line: string, i: nat, stack: seq<char>)
    requires i < |line| && Rooted(stack)
    ensures StepsPlain(line, i, stack)
  {
    var c := line[i];
    RootedPlain(stack);
    if IsOpen(c) || c == '<' { PlainPush(stack, c); }
    if IsClose(c) {
      EndStepClosing(line, i, stack);
    } else if c == ';' {
      PopAllPlain(stack, '<');
      RootedPlain(PopAll(stack, '<'));
    } else if (c == '<' || c == '>') && Last(stack) == '<' {
      RootedInit(stack);
    }
  }

  /** On a rooted stack the scan of a line is the plain scan of its place in the text. */
  lemma {:induction false} ScanEndPlain(line: string, i: nat, stack: seq<char>, t: string, off: nat)
    requires i <= |line| && Rooted(stack)
    requires off + |line| <= |t| && forall k :: 0 <= k < |line| ==> t[off + k] == line[k]
    ensures match ScanEnd(line, i, stack)
            case Found(e) => i < e <= |line| && FindClose(t, off + i, Plain(stack)) == Some(off + e - 1)
            case Broken => FindClose(t, off + i, Plain(stack)) == None
            case Pending(s) =>
              Rooted(s) && FindClose(t, off + i, Plain(stack)) == FindClose(t, off + |line|, Plain(s))
    decreases |line| - i
  {
    if i < |line| {
      EndStepPlain(line, i, stack);
      assert t[off + i] == line[i];
      var r := EndStep(line, i, stack);
      if r.Pending? { ScanEndPlain(line, i + 1, r.stack, t, off); }
    }
  }

  lemma {:induction false} CloseFromPlain(lines: seq<string>, n: nat, pos: nat, stack: seq<char>)
    requires n < |lines| && pos <= |lines[n]| && Rooted(stack)
    ensures var r := CloseFrom(lines, n, pos, stack);
            match FindClose(Flat(lines), Offset(lines, n) + pos, Plain(stack))
            case None => r.pos == -1 && r.linenum == |lines|
            case Some(q) =>
              && n <= r.linenum < |lines| && r.line == lines[r.linenum] && 0 < r.pos <= |r.line|
              && q == Offset(lines, r.linenum) + r.pos - 1
    decreases |lines| - n
  {
    FlatLine(lines, n);
    ScanEndPlain(lines[n], pos, stack, Flat(lines), Offset(lines, n));
    var scan := ScanEnd(lines[n], pos, stack);
    if scan.Pending? && n < |lines| - 1 {
      CloseFromPlain(lines, n + 1, 0, scan.stack);
    }
  }

  /** The answer points just past the matching bracket, or there is none. */
  ghost predicate AtMatchingClose(lines: seq<string>, n: nat, pos: nat, r: Place)
    requires InLine(lines, n, pos)
  {
    var p := Offset(lines, n) + pos;
    if r.pos == -1 then
      r.linenum == |lines| && forall q :: !Matched(Flat(lines), p, q)
    else
      && n <= r.linenum < |lines| && r.line == lines[r.linenum] && 0 < r.pos <= |r.line|
      && Matched(Flat(lines), p, Offset(lines, r.linenum) + r.pos - 1)
  }

  lemma ScanEndStart(line: string, pos: nat)
    requires pos < |line| && IsOpen(line[pos])
    ensures ScanEnd(line, pos, []) == ScanEnd(line, pos + 1, [line[pos]])
  {
    assert [] + [line[pos]] == [line[pos]];
  }

  lemma CloseStart(lines: seq<string>, n: nat, pos: nat)
    requires InLine(lines, n, pos) && IsOpen(lines[n][pos])
    ensures Close(lines, n, pos) == CloseFrom(lines, n, pos + 1, [lines[n][pos]])
  {
    ScanEndStart(lines[n], pos);
  }

  lemma FindCloseStart(t: string, p: nat)
    requires p < |t| && IsOpen(t[p])
    ensures Plain([t[p]]) == Push(Empty, t[p])
    ensures FindClose(t, p, Empty) == FindClose(t, p + 1, Push(Empty, t[p]))
  {
    assert [] + [t[p]] == [t[p]];
    PlainPush([], t[p]);
  }

  /** From `(`, `[` or `{` the forward matcher finds the match in the whole text, and fails only without one. */
  lemma CloseIsMatch(lines: seq<string>, n: nat, pos: nat)
    requires InLine(lines, n, pos) && IsOpen(lines[n][pos])
    ensures AtMatchingClose(lines, n, pos, Close(lines, n, pos))
  {
    FlatLine(lines, n);
    assert Flat(lines)[Offset(lines, n) + pos] == lines[n][pos];
    CloseStart(lines, n, pos);
    FindCloseStart(Flat(lines), Offset(lines, n) + pos);
    CloseFromPlain(lines, n, pos + 1, [lines[n][pos]]);
    FindCloseCorrect(Flat(lines), Offset(lines, n) + pos);
  }
}
