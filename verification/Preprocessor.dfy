/**
  How cpplint's `NestingState` treats conditional compilation.

  Each line first updates a stack of open `#if` blocks, which saves and restores
  copies of the nesting stack, and then changes the nesting stack in some way
  that depends on the line alone.  That per-line change is left arbitrary.
*/
module Preprocessor {
  import opened Chars

  datatype Directive = If | Else | Endif | Other

  function FirstWord(s: string): string {
    if s != [] && IsWord(s[0]) then [s[0]] + FirstWord(s[1..]) else []
  }

  /** The patterns `^\s*#\s*(if|ifdef|ifndef)\b`, `^\s*#\s*(else|elif)\b` and `^\s*#\s*endif\b`. */
  function DirectiveOf(line: string): Directive {
    var s := TrimLeft(line);
    if s == [] || s[0] != '#' then Other
    else
      var word := FirstWord(TrimLeft(s[1..]));
      if word in ["if", "ifdef", "ifndef"] then If
      else if word in ["else", "elif"] then Else
      else if word == "endif" then Endif
      else Other
  }

  lemma {:induction false} FirstWordOf(w: string, rest: string)
    requires (forall i :: 0 <= i < |w| ==> IsWord(w[i])) && (rest == [] || !IsWord(rest[0]))
    ensures FirstWord(w + rest) == w
  {
    if w == [] {
      assert w + rest == rest;
    } else {
      FirstWordOf(w[1..], rest);
      assert (w + rest)[1..] == w[1..] + rest;
    }
  }

  /** Between optional spaces and a word boundary, the word alone decides the directive. */
  lemma DirectiveForm(a: string, b: string, w: string, rest: string)
    requires AllSpace(a) && AllSpace(b)
    requires w != [] && (forall i :: 0 <= i < |w| ==> IsWord(w[i])) && (rest == [] || !IsWord(rest[0]))
    ensures DirectiveOf(a + ("#" + (b + (w + rest)))) ==
            if w in ["if", "ifdef", "ifndef"] then If
            else if w in ["else", "elif"] then Else
            else if w == "endif" then Endif
            else Other
  {
    TrimLeftOf(a, "#" + (b + (w + rest)));
    assert ("#" + (b + (w + rest)))[1..] == b + (w + rest);
    TrimLeftOf(b, w + rest);
    FirstWordOf(w, rest);
  }

  /** Without a `#` as its first character, or without a word behind it, a line is no directive. */
  lemma NoDirective(a: string, s: string)
    requires AllSpace(a) && (s == [] || !IsSpace(s[0]))
    ensures s == [] || s[0] != '#' ==> DirectiveOf(a + s) == Other
    ensures !IsWordStart(s) ==> DirectiveOf(a + ("#" + s)) == Other
  {
    TrimLeftOf(a, s);
    TrimLeftOf(a, "#" + s);
    assert ("#" + s)[1..] == s;
    TrimLeftOf([], s);
    assert [] + s == s;
  }

  predicate IsWordStart(s: string) {
    s != [] && IsWord(s[0])
  }

  /** A line of the file with its number. */
  datatype Line = Line(num: nat, text: string)

  /** What a line does to the nesting stack besides conditional compilation. */
  type Effect<!B> = (Line, seq<B>) -> seq<B>

  /** `stack_before_if`, `stack_before_else` and `seen_else`. */
  datatype Saved<B> = Saved(beforeIf: seq<B>, beforeElse: seq<B>, seenElse: bool)

  datatype State<B> = State(stack: seq<B>, pp: seq<Saved<B>>)

  function Top<B>(s: seq<Saved<B>>): Saved<B>
    requires s != []
  {
    s[|s| - 1]
  }

  function OnDirective<B>(d: Directive, s: State<B>): State<B> {
    match d
    case If => s.(pp := s.pp + [Saved(s.stack, [], false)])
    case Else =>
      if s.pp == [] then s
      else
        var top := Top(s.pp);
        var top' := if top.seenElse then top else top.(seenElse := true, beforeElse := s.stack);
        State(top.beforeIf, s.pp[|s.pp| - 1 := top'])
    case Endif =>
      if s.pp == [] then s
      else State(if Top(s.pp).seenElse then Top(s.pp).beforeElse else s.stack, s.pp[..|s.pp| - 1])
    case Other => s
  }

  function OnLine<B>(eff: Effect<B>, line: Line, s: State<B>): State<B> {
    var d := OnDirective(DirectiveOf(line.text), s);
    d.(stack := eff(line, d.stack))
  }

  function OnFile<B>(eff: Effect<B>, lines: seq<Line>, s: State<B>): State<B> {
    if lines == [] then s
    else OnLine(eff, lines[|lines| - 1], OnFile(eff, lines[..|lines| - 1], s))
  }

  class NestingState<B> {
    var stack: seq<B>
    var ppStack: seq<Saved<B>>

    constructor ()
      ensures Value() == State([], [])
    {
      stack, ppStack := [], [];
    }

    function Value(): State<B>
      reads this
    {
      State(stack, ppStack)
    }

    method UpdatePreprocessor(line: Line)
      modifies this
      ensures Value() == OnDirective(DirectiveOf(line.text), old(Value()))
    {
      var d := DirectiveOf(line.text);
      if d == If {
        ppStack := ppStack + [Saved(stack, [], false)];
      } else if d == Else {
        if ppStack != [] {
          var top := ppStack[|ppStack| - 1];
          if !top.seenElse {
            ppStack := ppStack[|ppStack| - 1 := top.(seenElse := true, beforeElse := stack)];
          }
          stack := top.beforeIf;
        }
      } else if d == Endif {
        if ppStack != [] {
          if ppStack[|ppStack| - 1].seenElse {
            stack := ppStack[|ppStack| - 1].beforeElse;
          }
          ppStack := ppStack[..|ppStack| - 1];
        }
      }
    }

    method Update(line: Line, eff: Effect<B>)
      modifies this
      ensures Value() == OnLine(eff, line, old(Value()))
    {
      UpdatePreprocessor(line);
      stack := eff(line, stack);
    }

    /** The line-by-line pass over a file, by the caller of `Update`. */
    method ProcessFile(lines: seq<Line>, eff: Effect<B>)
      requires Value() == State([], [])
      modifies this
      ensures Value() == OnFile(eff, lines, State([], []))
      ensures EndsLive(lines) ==> stack == Applied(eff, Kept(lines), [])
    {
      assert lines[..0] == [];
      for i := 0 to |lines|
        invariant Value() == OnFile(eff, lines[..i], State([], []))
      {
        Update(lines[i], eff);
        assert lines[..i + 1][..i] == lines[..i];
      }
      assert lines[..|lines|] == lines;
      SkippedBranchesDoNotCount(eff, lines);
    }
  }

  // ----- The run that skips

  /** `open` conditionals are open around the kept text; inside a skipped part, `skip` counts from 1. */
  datatype Place = Place(open: nat, skip: nat)

  function Move(p: Place, d: Directive): Place {
    if p.skip == 0 then
      match d
      case If => Place(p.open + 1, 0)
      case Else => if p.open > 0 then Place(p.open, 1) else p
      case Endif => if p.open > 0 then Place(p.open - 1, 0) else p
      case Other => p
    else
      match d
      case If => Place(p.open, p.skip + 1)
      case Endif => if p.skip == 1 && p.open > 0 then Place(p.open - 1, 0) else Place(p.open, p.skip - 1)
      case _ => p
  }

  function PlaceAfter(lines: seq<Line>): Place {
    if lines == [] then Place(0, 0)
    else Move(PlaceAfter(lines[..|lines| - 1]), DirectiveOf(lines[|lines| - 1].text))
  }

  /** The lines outside every part from the first `#else` or `#elif` of a block up to its `#endif`. */
  function Kept(lines: seq<Line>): seq<Line> {
    if lines == [] then []
    else
      var last := |lines| - 1;
      if PlaceAfter(lines).skip == 0 then Kept(lines[..last]) + [lines[last]] else Kept(lines[..last])
  }

  function Applied<B>(eff: Effect<B>, lines: seq<Line>, stack: seq<B>): seq<B> {
    if lines == [] then stack
    else eff(lines[|lines| - 1], Applied(eff, lines[..|lines| - 1], stack))
  }

  /** The file does not end inside a skipped part. */
  predicate EndsLive(lines: seq<Line>) {
    PlaceAfter(lines).skip == 0
  }

  // ----- The two runs agree

  /** In kept text no open block has seen an else; in skipped text the outermost that has remembers the kept run. */
  ghost predicate Agrees<B>(p: Place, kept: seq<B>, s: State<B>) {
    && (forall i :: 0 <= i < p.open && i < |s.pp| ==>
          (p.skip > 0 && i == p.open - 1) || !s.pp[i].seenElse)
    && if p.skip == 0 then |s.pp| == p.open && s.stack == kept
       else
         && p.open > 0 && |s.pp| == p.open + p.skip - 1
         && s.pp[p.open - 1].seenElse && s.pp[p.open - 1].beforeElse == kept
  }

  lemma DirectiveAgrees<B>(p: Place, d: Directive, kept: seq<B>, s: State<B>)
    requires Agrees(p, kept, s)
    ensures Agrees(Move(p, d), kept, OnDirective(d, s))
  {
  }

  lemma {:induction false} FileAgrees<B>(eff: Effect<B>, lines: seq<Line>)
    ensures Agrees(PlaceAfter(lines), Applied(eff, Kept(lines), []), OnFile(eff, lines, State([], [])))
    decreases |lines|
  {
    if lines != [] {
      var last := |lines| - 1;
      var before := lines[..last];
      FileAgrees(eff, before);
      var s := OnFile(eff, before, State([], []));
      DirectiveAgrees(PlaceAfter(before), DirectiveOf(lines[last].text), Applied(eff, Kept(before), []), s);
      if PlaceAfter(lines).skip == 0 {
        assert Kept(lines)[..|Kept(before)|] == Kept(before);
      }
    }
  }

  /**
    For every file and every per-line effect: unless the file ends inside a
    skipped part, the final nesting stack is that of a run over the kept lines.
  */
  lemma SkippedBranchesDoNotCount<B>(eff: Effect<B>, lines: seq<Line>)
    ensures EndsLive(lines) ==> OnFile(eff, lines, State([], [])).stack == Applied(eff, Kept(lines), [])
  {
    FileAgrees(eff, lines);
  }

  // ----- What every line starts from

  /** How many blocks are open; an `#endif` too many closes nothing. */
  function Height(lines: seq<Line>): nat {
    if lines == [] then 0
    else
      var n := Height(lines[..|lines| - 1]);
      match DirectiveOf(lines[|lines| - 1].text)
      case If => n + 1
      case Endif => if n == 0 then 0 else n - 1
      case _ => n
  }

  /** Line `i` opens a block that is still open before line `j`. */
  ghost predicate InBlock(lines: seq<Line>, i: nat, j: nat) {
    && i < j <= |lines| && DirectiveOf(lines[i].text) == If
    && forall k :: i < k <= j ==> Height(lines[..k]) > Height(lines[..i])
  }

  /** Line `j` belongs to the block that line `i` opens, and to no block inside it. */
  ghost predicate Belongs(lines: seq<Line>, i: nat, j: nat) {
    j < |lines| && InBlock(lines, i, j) && Height(lines[..j]) == Height(lines[..i]) + 1
  }

  ghost predicate ElseOf(lines: seq<Line>, i: nat, j: nat) {
    Belongs(lines, i, j) && DirectiveOf(lines[j].text) == Else
  }

  ghost predicate EndifOf(lines: seq<Line>, i: nat, j: nat) {
    Belongs(lines, i, j) && DirectiveOf(lines[j].text) == Endif
  }

  ghost predicate NoElseBefore(lines: seq<Line>, i: nat, j: nat) {
    forall k: nat :: k < j ==> !ElseOf(lines, i, k)
  }

  function StateAfter<B>(eff: Effect<B>, lines: seq<Line>, n: nat): State<B>
    requires n <= |lines|
  {
    OnFile(eff, lines[..n], State([], []))
  }

  lemma NextState<B>(eff: Effect<B>, lines: seq<Line>, n: nat)
    requires n < |lines|
    ensures StateAfter(eff, lines, n + 1) == OnLine(eff, lines[n], StateAfter(eff, lines, n))
  {
    assert lines[..n + 1][..n] == lines[..n];
  }

  lemma {:induction false} HeightIsOpen<B>(eff: Effect<B>, lines: seq<Line>, n: nat)
    requires n <= |lines|
    ensures |StateAfter(eff, lines, n).pp| == Height(lines[..n])
    decreases n
  {
    if n > 0 {
      HeightIsOpen(eff, lines, n - 1);
      NextState(eff, lines, n - 1);
      assert lines[..n][..n - 1] == lines[..n - 1];
    }
  }

  /** A directive that leaves block `h` open changes what is saved for it only if it is the block's own `#else`. */
  lemma KeepsBelow<B>(d: Directive, s: State<B>, h: nat)
    requires h < |s.pp| && h < |OnDirective(d, s).pp|
    ensures OnDirective(d, s).pp[h].beforeIf == s.pp[h].beforeIf
    ensures !(d == Else && |s.pp| == h + 1) ==> OnDirective(d, s).pp[h] == s.pp[h]
  {
  }

  /** What is saved before line `j` for the block that line `i` opens. */
  function SavedFor<B>(eff: Effect<B>, lines: seq<Line>, i: nat, j: nat): Saved<B>
    requires InBlock(lines, i, j)
  {
    HeightIsOpen(eff, lines, j);
    StateAfter(eff, lines, j).pp[Height(lines[..i])]
  }

  lemma SavedAtFirst<B>(eff: Effect<B>, lines: seq<Line>, i: nat)
    requires InBlock(lines, i, i + 1)
    ensures SavedFor(eff, lines, i, i + 1) == Saved(StateAfter(eff, lines, i).stack, [], false)
  {
    HeightIsOpen(eff, lines, i);
    NextState(eff, lines, i);
  }

  lemma SavedStays<B>(eff: Effect<B>, lines: seq<Line>, i: nat, j: nat)
    requires InBlock(lines, i, j) && InBlock(lines, i, j + 1)
    ensures SavedFor(eff, lines, i, j + 1).beforeIf == SavedFor(eff, lines, i, j).beforeIf
    ensures !ElseOf(lines, i, j) ==> SavedFor(eff, lines, i, j + 1) == SavedFor(eff, lines, i, j)
  {
    HeightIsOpen(eff, lines, j);
    HeightIsOpen(eff, lines, j + 1);
    NextState(eff, lines, j);
    KeepsBelow(DirectiveOf(lines[j].text), StateAfter(eff, lines, j), Height(lines[..i]));
  }

  lemma SavedAtElse<B>(eff: Effect<B>, lines: seq<Line>, i: nat, j: nat)
    requires ElseOf(lines, i, j) && InBlock(lines, i, j + 1)
    ensures SavedFor(eff, lines, i, j + 1).seenElse
    ensures !SavedFor(eff, lines, i, j).seenElse ==>
              SavedFor(eff, lines, i, j + 1).beforeElse == StateAfter(eff, lines, j).stack
  {
    HeightIsOpen(eff, lines, j);
    NextState(eff, lines, j);
  }

  /** The stack before the `#if`. */
  lemma {:induction false} BlockSaved<B>(eff: Effect<B>, lines: seq<Line>, i: nat, j: nat)
    requires InBlock(lines, i, j)
    ensures SavedFor(eff, lines, i, j).beforeIf == StateAfter(eff, lines, i).stack
    decreases j
  {
    if i + 1 == j {
      SavedAtFirst(eff, lines, i);
    } else {
      BlockSaved(eff, lines, i, j - 1);
      SavedStays(eff, lines, i, j - 1);
    }
  }

  /** No `#else` before the first one. */
  lemma {:induction false} NoElseSaved<B>(eff: Effect<B>, lines: seq<Line>, i: nat, j: nat)
    requires InBlock(lines, i, j) && NoElseBefore(lines, i, j)
    ensures !SavedFor(eff, lines, i, j).seenElse
    decreases j
  {
    if i + 1 == j {
      SavedAtFirst(eff, lines, i);
    } else {
      NoElseSaved(eff, lines, i, j - 1);
      SavedStays(eff, lines, i, j - 1);
    }
  }

  /** And the stack before the first `#else`. */
  lemma {:induction false} FirstElseSaved<B>(eff: Effect<B>, lines: seq<Line>, i: nat, k: nat, j: nat)
    requires InBlock(lines, i, j) && ElseOf(lines, i, k) && NoElseBefore(lines, i, k) && k < j
    ensures SavedFor(eff, lines, i, j).seenElse
    ensures SavedFor(eff, lines, i, j).beforeElse == StateAfter(eff, lines, k).stack
    decreases j
  {
    if k == j - 1 {
      NoElseSaved(eff, lines, i, k);
      SavedAtElse(eff, lines, i, k);
    } else {
      FirstElseSaved(eff, lines, i, k, j - 1);
      LaterElse(eff, lines, i, j - 1);
    }
  }

  lemma LaterElse<B>(eff: Effect<B>, lines: seq<Line>, i: nat, j: nat)
    requires InBlock(lines, i, j) && InBlock(lines, i, j + 1) && SavedFor(eff, lines, i, j).seenElse
    ensures SavedFor(eff, lines, i, j + 1) == SavedFor(eff, lines, i, j)
  {
    SavedStays(eff, lines, i, j);
    HeightIsOpen(eff, lines, j);
    NextState(eff, lines, j);
  }

  /** Every `#else` and `#elif` starts again from the nesting stack before the `#if` of its block. */
  lemma ElseRestarts<B>(eff: Effect<B>, lines: seq<Line>, i: nat, j: nat)
    requires ElseOf(lines, i, j)
    ensures StateAfter(eff, lines, j + 1).stack == eff(lines[j], StateAfter(eff, lines, i).stack)
  {
    BlockSaved(eff, lines, i, j);
    HeightIsOpen(eff, lines, j);
    NextState(eff, lines, j);
  }

  /** An `#endif` goes on from the stack before the first `#else` of its block. */
  lemma EndifResumes<B>(eff: Effect<B>, lines: seq<Line>, i: nat, k: nat, j: nat)
    requires EndifOf(lines, i, j) && ElseOf(lines, i, k) && NoElseBefore(lines, i, k) && k < j
    ensures StateAfter(eff, lines, j + 1).stack == eff(lines[j], StateAfter(eff, lines, k).stack)
  {
    FirstElseSaved(eff, lines, i, k, j);
    HeightIsOpen(eff, lines, j);
    NextState(eff, lines, j);
  }

  /** All other lines go on from the line before: no directive, an `#if`, and an `#endif` without an `#else`. */
  lemma OthersContinue<B>(eff: Effect<B>, lines: seq<Line>, i: nat, j: nat)
    requires j < |lines|
    requires
      || DirectiveOf(lines[j].text) == Other || DirectiveOf(lines[j].text) == If || Height(lines[..j]) == 0
      || (EndifOf(lines, i, j) && NoElseBefore(lines, i, j))
    ensures StateAfter(eff, lines, j + 1).stack == eff(lines[j], StateAfter(eff, lines, j).stack)
  {
    HeightIsOpen(eff, lines, j);
    if EndifOf(lines, i, j) && NoElseBefore(lines, i, j) { NoElseSaved(eff, lines, i, j); }
    NextState(eff, lines, j);
  }

  /** Whenever a block is open, its innermost `#if` is some earlier line, so these are all the cases. */
  lemma SomeBlock(lines: seq<Line>, j: nat) returns (i: nat)
    requires j < |lines| && Height(lines[..j]) > 0
    ensures Belongs(lines, i, j)
  {
    i := OpenerAt(lines, j, Height(lines[..j]));
  }

  /** Before line `j` the `n`th open block was opened by some line. */
  lemma {:induction false} OpenerAt(lines: seq<Line>, j: nat, n: nat) returns (i: nat)
    requires j <= |lines| && 0 < n <= Height(lines[..j])
    ensures InBlock(lines, i, j) && Height(lines[..i]) + 1 == n
    decreases j
  {
    assert lines[..j][..j - 1] == lines[..j - 1];
    if Height(lines[..j - 1]) < n {
      i := j - 1;
    } else {
      i := OpenerAt(lines, j - 1, n);
    }
  }

  // ----- Well-nested files

  /** Open blocks after a prefix, or -1 once an `#else` or `#endif` had no block to belong to. */
  function Depth(lines: seq<Line>): int {
    if lines == [] then 0
    else
      var d := Depth(lines[..|lines| - 1]);
      match DirectiveOf(lines[|lines| - 1].text)
      case If => if d < 0 then d else d + 1
      case Else => if d <= 0 then -1 else d
      case Endif => if d <= 0 then -1 else d - 1
      case Other => d
  }

  /** In a well-nested file every open block is either around kept text or inside a skipped part. */
  lemma {:induction false} DepthIsPlace(lines: seq<Line>)
    requires Depth(lines) >= 0
    ensures var p := PlaceAfter(lines);
            Depth(lines) == if p.skip == 0 then p.open else p.open + p.skip - 1
    ensures PlaceAfter(lines).skip > 0 ==> PlaceAfter(lines).open > 0
  {
    if lines != [] { DepthIsPlace(lines[..|lines| - 1]); }
  }

  lemma {:induction false} DepthIsHeight(lines: seq<Line>)
    requires Depth(lines) >= 0
    ensures Depth(lines) == Height(lines)
  {
    if lines != [] { DepthIsHeight(lines[..|lines| - 1]); }
  }

  /** Every well-nested file meets the condition. */
  lemma WellNestedEndsLive(lines: seq<Line>)
    requires Depth(lines) == 0
    ensures EndsLive(lines)
  {
    DepthIsPlace(lines);
  }

  // ----- The condition is exact

  predicate Numbered(lines: seq<Line>) {
    forall i :: 0 <= i < |lines| ==> lines[i].num == i
  }

  /** The effect that pushes every line it is given. */
  function Record(line: Line, stack: seq<Line>): seq<Line> {
    stack + [line]
  }

  lemma {:induction false} RecordKeepsAll(lines: seq<Line>)
    ensures Applied(Record, lines, []) == lines
  {
    if lines != [] { RecordKeepsAll(lines[..|lines| - 1]); }
  }

  lemma {:induction false} KeptFromLines(lines: seq<Line>, n: nat)
    requires forall i :: 0 <= i < |lines| ==> lines[i].num < n
    ensures forall i :: 0 <= i < |Kept(lines)| ==> Kept(lines)[i].num < n
  {
    if lines != [] { KeptFromLines(lines[..|lines| - 1], n); }
  }

  /** On a numbered file the two runs agree for every effect exactly when the file does not end in a skipped part. */
  lemma AgreeExactlyWhenLive(lines: seq<Line>)
    requires Numbered(lines)
    ensures EndsLive(lines) <==>
            forall eff: Effect<Line> :: OnFile(eff, lines, State([], [])).stack == Applied(eff, Kept(lines), [])
  {
    forall eff: Effect<Line> | EndsLive(lines)
      ensures OnFile(eff, lines, State([], [])).stack == Applied(eff, Kept(lines), [])
    {
      SkippedBranchesDoNotCount(eff, lines);
    }
    if !EndsLive(lines) {
      var last := |lines| - 1;
      KeptFromLines(lines[..last], last);
      RecordKeepsAll(Kept(lines));
      var eff: Effect<Line> := Record;
      var got := OnFile(eff, lines, State([], [])).stack;
      assert got[|got| - 1] == lines[last];
      assert got != Kept(lines);
      assert Applied(eff, Kept(lines), []) == Kept(lines);
    }
  }

  /** There are such files: one that ends right after its `#else`. */
  lemma UnclosedElseNotLive(rest: string, rest': string)
    requires (rest == [] || !IsWord(rest[0])) && (rest' == [] || !IsWord(rest'[0]))
    ensures !EndsLive([Line(0, "#" + ("if" + rest)), Line(1, "#" + ("else" + rest'))])
  {
    var l0, l1 := Line(0, "#" + ("if" + rest)), Line(1, "#" + ("else" + rest'));
    DirectiveHere("if", rest);
    DirectiveHere("else", rest');
    assert [l0, l1][..1] == [l0] && [l0][..0] == [];
    assert PlaceAfter([l0]) == Place(1, 0);
  }

  lemma DirectiveHere(w: string, rest: string)
    requires w in ["if", "else"] && (rest == [] || !IsWord(rest[0]))
    ensures DirectiveOf("#" + (w + rest)) == if w == "if" then If else Else
  {
    DirectiveForm("", "", w, rest);
    assert "" + (w + rest) == w + rest && "" + ("#" + (w + rest)) == "#" + (w + rest);
  }
}
