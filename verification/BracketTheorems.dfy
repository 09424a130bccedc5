/** What the three bracket matchers of cpplint promise each other. */
module BracketTheorems {
  import opened Options
  import opened Dyck
  import opened Lines
  import opened ForwardScan
  import opened BackwardScan

  /** Where two brackets match in the text, the forward matcher goes from one to the other. */
  lemma MatchedForward(lines: seq<string>, n: nat, pos: nat, n': nat, pos': nat)
    requires InLine(lines, n, pos) && InLine(lines, n', pos')
    requires Matched(Flat(lines), Offset(lines, n) + pos, Offset(lines, n') + pos')
    ensures Close(lines, n, pos) == Place(lines[n'], n', pos' + 1)
  {
    var p, q := Offset(lines, n) + pos, Offset(lines, n') + pos';
    BracketsInText(lines, n, pos);
    CloseIsMatch(lines, n, pos);
    var f := Close(lines, n, pos);
    assert f.pos != -1;
    MatchUnique(Flat(lines), p, q, p, Offset(lines, f.linenum) + f.pos - 1);
    PlaceUnique(lines, n', pos', f.linenum, f.pos - 1);
  }

  /** And the backward matcher goes the other way. */
  lemma MatchedBackward(lines: seq<string>, n: nat, pos: nat, n': nat, pos': nat)
    requires InLine(lines, n, pos) && InLine(lines, n', pos')
    requires Matched(Flat(lines), Offset(lines, n) + pos, Offset(lines, n') + pos')
    ensures Open(lines, n', pos') == Place(lines[n], n, pos)
  {
    var p, q := Offset(lines, n) + pos, Offset(lines, n') + pos';
    BracketsInText(lines, n', pos');
    OpenIsMatch(lines, n', pos');
    var b := Open(lines, n', pos');
    assert b.pos != -1;
    MatchUnique(Flat(lines), p, q, Offset(lines, b.linenum) + b.pos, q);
    PlaceUnique(lines, n, pos, b.linenum, b.pos);
  }

  lemma BracketsInText(lines: seq<string>, n: nat, pos: nat)
    requires InLine(lines, n, pos)
    ensures Offset(lines, n) + pos < |Flat(lines)| && Flat(lines)[Offset(lines, n) + pos] == lines[n][pos]
  {
    FlatLine(lines, n);
  }

  /** Matching forward and then backward from the bracket found returns to the start. */
  lemma CloseThenOpen(lines: seq<string>, n: nat, pos: nat)
    requires InLine(lines, n, pos) && IsOpen(lines[n][pos])
    requires Close(lines, n, pos).pos != -1
    ensures var r := Close(lines, n, pos);
            InLine(lines, r.linenum, r.pos - 1) && Open(lines, r.linenum, r.pos - 1) == Place(lines[n], n, pos)
  {
    CloseIsMatch(lines, n, pos);
    var r := Close(lines, n, pos);
    MatchedBackward(lines, n, pos, r.linenum, r.pos - 1);
  }

  /** Matching backward and then forward from the bracket found returns just past the start. */
  lemma OpenThenClose(lines: seq<string>, n: nat, pos: nat)
    requires InLine(lines, n, pos) && IsClose(lines[n][pos])
    requires Open(lines, n, pos).pos != -1
    ensures var r := Open(lines, n, pos);
            InLine(lines, r.linenum, r.pos) && Close(lines, r.linenum, r.pos) == Place(lines[n], n, pos + 1)
  {
    OpenIsMatch(lines, n, pos);
    var r := Open(lines, n, pos);
    MatchedForward(lines, r.linenum, r.pos, n, pos);
  }

  // ----- _GetTextInside

  function CloserOf(c: char): char
    requires IsOpen(c)
  {
    if c == '(' then ')' else if c == '[' then ']' else '}'
  }

  /**
    `_GetTextInside`, where `matchEnd` is the end of the first match of the
    caller's start pattern, if there is one.  The stack holds the closing
    brackets still expected.
  */
  method GetTextInside(text: string, matchEnd: Option<nat>) returns (r: Option<string>)
    requires matchEnd.Some? ==> 0 < matchEnd.value <= |text| && IsOpen(text[matchEnd.value - 1])
    ensures matchEnd.None? ==> r == None
    ensures matchEnd.Some? ==>
              var scan := ScanEnd(text, matchEnd.value - 1, []);
              if scan.Found? then
                matchEnd.value < scan.pos <= |text| && r == Some(text[matchEnd.value..scan.pos - 1])
              else r == None
    ensures r.Some? ==> Matched(text, matchEnd.value - 1, matchEnd.value + |r.value|)
  {
    if matchEnd.None? {
      return None;
    }
    var start := matchEnd.value;
    ScanFromOpening(text, start - 1);
    FindCloseCorrect(text, start - 1);
    var position := FindPosition(text, start);
    if position.None? {
      return None;
    }
    return Some(text[start..position.value - 1]);
  }

  /** The loop of `_GetTextInside`: the position just past the closing bracket. */
  method FindPosition(text: string, start: nat) returns (r: Option<nat>)
    requires 0 < start <= |text| && IsOpen(text[start - 1])
    ensures match FindClose(text, start - 1, Empty)
            case None => r == None
            case Some(q) => r == Some(q + 1)
  {
    var stack := [CloserOf(text[start - 1])];
    var position := start;
    FindCloseStart(text, start - 1);
    assert Plain(stack) == Push(Empty, text[start - 1]) by { PlainPush([], stack[0]); }
    while stack != [] && position < |text|
      invariant start <= position <= |text|
      invariant forall k :: 0 <= k < |stack| ==> IsClose(stack[k])
      invariant if stack == [] then position > start && FindClose(text, start - 1, Empty) == Some(position - 1)
                else FindClose(text, start - 1, Empty) == FindClose(text, position, Plain(stack))
      decreases |text| - position
    {
      var c := text[position];
      ExpectStep(stack, c);
      if c == stack[|stack| - 1] {
        stack := stack[..|stack| - 1];
      } else if IsClose(c) {
        return None;
      } else if IsOpen(c) {
        stack := stack + [CloserOf(c)];
      }
      position := position + 1;
    }
    return if stack == [] then Some(position) else None;
  }

  lemma PlainDepth(stack: seq<char>)
    requires forall k :: 0 <= k < |stack| ==> IsClose(stack[k])
    ensures Plain(stack) == Empty <==> stack == []
    ensures stack != [] ==> Plain(stack) == Push(Plain(Init(stack)), OpenOf(Last(stack)))
  {
    if stack != [] { assert Last(stack) == stack[|stack| - 1]; }
  }

  /** One character against the stack of expected closing brackets is one plain step. */
  lemma ExpectStep(stack: seq<char>, c: char)
    requires stack != [] && forall k :: 0 <= k < |stack| ==> IsClose(stack[k])
    ensures Plain(stack) != Empty && (Plain(Init(stack)) == Empty <==> |stack| == 1)
    ensures Step(Plain(stack), c) ==
            if c == Last(stack) then Some(Plain(Init(stack)))
            else if IsClose(c) then None
            else if IsOpen(c) then Some(Plain(stack + [CloserOf(c)]))
            else Some(Plain(stack))
  {
    PlainDepth(stack);
    PlainDepth(Init(stack));
    if IsOpen(c) { PlainPush(stack, CloserOf(c)); }
  }

  lemma ScanHere(text: string, i: nat, stack: seq<char>)
    requires i <= |text| && Rooted(stack)
    ensures match ScanEnd(text, i, stack)
            case Found(e) => i < e <= |text| && FindClose(text, i, Plain(stack)) == Some(e - 1)
            case _ => FindClose(text, i, Plain(stack)) == None
  {
    ScanEndPlain(text, i, stack, text, 0);
    var scan := ScanEnd(text, i, stack);
    if scan.Pending? { assert FindClose(text, |text|, Plain(scan.stack)) == None; }
  }

  /** On one line the scanner of `CloseExpression` is the plain scan. */
  lemma ScanFromOpening(text: string, p: nat)
    requires p < |text| && IsOpen(text[p])
    ensures match ScanEnd(text, p, [])
            case Found(e) => p + 1 < e <= |text| && FindClose(text, p, Empty) == Some(e - 1)
            case _ => FindClose(text, p, Empty) == None
  {
    FindCloseStart(text, p);
    ScanEndStart(text, p);
    ScanHere(text, p + 1, [text[p]]);
  }
}
