/**
  How cpplint's `CleanseRawStrings` removes C++11 raw string literals, whose
  syntax is given in section 2.14.5 [lex.string] of ISO/IEC 14882:2011.
*/
module RawStrings {
  import opened Options
  import opened Chars

  // ----- Finding an opening

  /** A character of the delimiter class `[^\s\\()]`. */
  predicate IsDelim(c: char) {
    !IsSpace(c) && c != '\\' && c != '(' && c != ')'
  }

  /** Where the run of delimiter characters from `i` on ends. */
  function DelimEnd(s: string, i: nat): (e: nat)
    requires i <= |s|
    ensures i <= e <= |s| && (e < |s| ==> !IsDelim(s[e]))
    decreases |s| - i
  {
    if i < |s| && IsDelim(s[i]) then DelimEnd(s, i + 1) else i
  }

  /** The length of `R"`, `u8R"`, `uR"`, `UR"` or `LR"` at `i`, or 0. */
  function PrefixLength(s: string, i: nat): (n: nat)
    ensures n != 1 && (n > 0 ==> i + n <= |s|)
  {
    if i + 2 <= |s| && s[i] == 'R' && s[i + 1] == '"' then 2
    else if i + 3 <= |s| && (s[i] == 'u' || s[i] == 'U' || s[i] == 'L') && s[i + 1] == 'R' && s[i + 2] == '"' then 3
    else if i + 4 <= |s| && s[i] == 'u' && s[i + 1] == '8' && s[i + 2] == 'R' && s[i + 3] == '"' then 4
    else 0
  }

  /** The length of an opening such as `R"delimiter(` at `i`, or 0. */
  function OpeningLength(s: string, i: nat): (n: nat)
    ensures n > 0 ==> n >= 3 && i + n <= |s| && s[i + n - 1] == '('
  {
    var p := PrefixLength(s, i);
    if p == 0 then 0
    else
      var e := DelimEnd(s, i + p);
      if e < |s| && s[e] == '(' then e + 1 - i else 0
  }

  /** An opening starts at `i`, at a word boundary. */
  predicate OpensAt(s: string, i: nat) {
    OpeningLength(s, i) > 0 && (i == 0 || !IsWord(s[i - 1]))
  }

  function LastTrue(bits: seq<bool>): (r: Option<nat>)
    ensures match r
            case None => forall k :: 0 <= k < |bits| ==> !bits[k]
            case Some(i) => i < |bits| && bits[i] && forall k :: i < k < |bits| ==> !bits[k]
  {
    if bits == [] then None
    else if bits[|bits| - 1] then Some(|bits| - 1)
    else LastTrue(bits[..|bits| - 1])
  }

  function Openings(s: string): seq<bool> {
    seq(|s|, k requires 0 <= k < |s| => OpensAt(s, k))
  }

  /** The last opening: the one that a greedy `^(.*)` leaves to match. */
  function LastOpening(s: string): (r: Option<nat>)
    ensures match r
            case None => NoOpening(s)
            case Some(i) => i < |s| && OpensAt(s, i) && forall k: nat :: i < k < |s| ==> !OpensAt(s, k)
  {
    var bits := Openings(s);
    assert forall k: nat :: k < |s| ==> OpensAt(s, k) == bits[k];
    LastTrue(bits)
  }

  ghost predicate NoOpening(s: string) {
    forall k: nat :: k < |s| ==> !OpensAt(s, k)
  }

  /** `s.find(sub)` */
  function FindText(s: string, sub: string): (r: Option<nat>)
    ensures r.Some? ==> Occurs(s, sub, r.value)
  {
    if Occurs(s, sub, 0) then Some(0)
    else if s == [] then None
    else
      match FindText(s[1..], sub)
      case None => None
      case Some(i) => assert s[i + 1..i + 1 + |sub|] == s[1..][i..i + |sub|]; Some(i + 1)
  }

  function ClosingOf(s: string, i: nat): (d: string)
    requires OpensAt(s, i)
    ensures |d| >= 2 && d[0] == ')' && d[|d| - 1] == '"'
  {
    ")" + s[i + PrefixLength(s, i)..i + OpeningLength(s, i) - 1] + "\""
  }

  // ----- The behaviour

  /** A line's text, and the closing delimiter it is waiting for, if any. */
  datatype Cleansed = Cleansed(text: string, delimiter: Option<string>)

  const EMPTY := "\"\""

  /** One round on a line: nothing to do, the last raw string removed, or left open. */
  datatype Round = Clean | Closed(line: string) | Open(text: string, delimiter: string)

  /** The raw string that starts at `i` with an opening of length `n`, cut out up to its closing `d`. */
  function Cut(line: string, i: nat, n: nat, d: string): (r: Round)
    requires i + n <= |line|
    ensures !r.Clean?
    ensures r.Closed? ==> |r.line| <= |line| - n - |d| + 2
    ensures r.Open? ==> r == Open(line[..i] + EMPTY, d)
  {
    var body := line[i + n..];
    match FindText(body, d)
    case Some(end) => Closed(line[..i] + EMPTY + body[end + |d|..])
    case None => Open(line[..i] + EMPTY, d)
  }

  function RoundOn(line: string): (r: Round)
    ensures r.Closed? ==> |r.line| < |line|
    ensures r.Open? ==> |r.delimiter| >= 2 && r.delimiter[0] == ')'
  {
    match LastOpening(line)
    case None => Clean
    case Some(i) => Cut(line, i, OpeningLength(line, i), ClosingOf(line, i))
  }

  /** The inner loop: removes raw strings from the last one on. */
  function Strip(line: string): (r: Cleansed)
    decreases |line|
  {
    match RoundOn(line)
    case Clean => Cleansed(line, None)
    case Closed(next) => Strip(next)
    case Open(text, d) => Cleansed(text, Some(d))
  }

  function LeadingSpace(s: string): (n: nat)
    ensures n <= |s| && (n < |s| ==> !IsSpace(s[n]))
    ensures forall k :: 0 <= k < n ==> IsSpace(s[k])
  {
    if s != [] && IsSpace(s[0]) then 1 + LeadingSpace(s[1..]) else 0
  }

  /** A line that begins inside a raw string and closes it, with the inside replaced. */
  function Resumed(line: string, d: string, end: nat): string
    requires end + |d| <= |line|
  {
    line[..LeadingSpace(line)] + EMPTY + line[end + |d|..]
  }

  function OnLine(line: string, waiting: Option<string>): Cleansed {
    match waiting
    case None => Strip(line)
    case Some(d) =>
      match FindText(line, d)
      case None => Cleansed(EMPTY, Some(d))
      case Some(end) => Strip(Resumed(line, d, end))
  }

  function OnLines(lines: seq<string>): (seq<string>, Option<string>) {
    if lines == [] then ([], None)
    else
      var (done, waiting) := OnLines(lines[..|lines| - 1]);
      var r := OnLine(lines[|lines| - 1], waiting);
      (done + [r.text], r.delimiter)
  }

  // ----- The code

  method CleanseRawStrings(rawLines: seq<string>) returns (lines: seq<string>)
    ensures lines == OnLines(rawLines).0
  {
    var delimiter: Option<string> := None;
    lines := [];
    for i := 0 to |rawLines|
      invariant (lines, delimiter) == OnLines(rawLines[..i])
    {
      assert rawLines[..i + 1][..i] == rawLines[..i];
      var r := CleanseLine(rawLines[i], delimiter);
      lines, delimiter := lines + [r.text], r.delimiter;
    }
    assert rawLines[..|rawLines|] == rawLines;
  }

  method CleanseLine(rawLine: string, waiting: Option<string>) returns (r: Cleansed)
    ensures r == OnLine(rawLine, waiting)
  {
    var line, delimiter := rawLine, waiting;
    if delimiter.Some? {
      var end := FindText(line, delimiter.value);
      if end.Some? {
        line := Resumed(line, delimiter.value, end.value);
        delimiter := None;
      } else {
        line := EMPTY;
      }
    }
    if delimiter.None? {
      r := StripOpenings(line);
    } else {
      r := Cleansed(line, delimiter);
    }
  }

  method StripOpenings(start: string) returns (r: Cleansed)
    ensures r == Strip(start)
  {
    var line, delimiter: Option<string> := start, None;
    while delimiter.None?
      invariant if delimiter.None? then Strip(line) == Strip(start)
                else Strip(start) == Cleansed(line, delimiter)
      decreases delimiter.None?, |line|
    {
      match RoundOn(line) {
        case Clean => break;
        case Closed(next) => line := next;
        case Open(text, d) => line, delimiter := text, Some(d);
      }
    }
    r := Cleansed(line, delimiter);
  }

  // ----- What it promises

  /** The lists keep their length. */
  lemma {:induction false} SameLength(lines: seq<string>)
    ensures |OnLines(lines).0| == |lines|
  {
    if lines != [] { SameLength(lines[..|lines| - 1]); }
  }

  lemma {:induction false} StripWaits(line: string)
    ensures var d := Strip(line).delimiter; d.Some? ==> |d.value| >= 2 && d.value[0] == ')'
    decreases |line|
  {
    var r := RoundOn(line);
    if r.Closed? { StripWaits(r.line); }
  }

  /** A delimiter that is waited for starts with a bracket. */
  lemma {:induction false} WaitsForClosing(lines: seq<string>)
    ensures var d := OnLines(lines).1; d.Some? ==> |d.value| >= 2 && d.value[0] == ')'
  {
    if lines != [] {
      var before, line := lines[..|lines| - 1], lines[|lines| - 1];
      WaitsForClosing(before);
      var waiting := OnLines(before).1;
      if waiting.None? {
        StripWaits(line);
      } else if FindText(line, waiting.value).Some? {
        StripWaits(Resumed(line, waiting.value, FindText(line, waiting.value).value));
      }
    }
  }

  /** So a line that holds it has a character after its leading space, which the code takes for granted. */
  lemma LeadingSpaceFound(lines: seq<string>, line: string)
    requires var d := OnLines(lines).1; d.Some? && FindText(line, d.value).Some?
    ensures LeadingSpace(line) < |line| && !IsSpace(line[LeadingSpace(line)])
  {
    WaitsForClosing(lines);
    var d := OnLines(lines).1.value;
    var i := FindText(line, d).value;
    assert Occurs(line, d, i) && line[i] == line[i..i + |d|][0] == ')';
  }

  /** Unless the line leaves a raw string open, it keeps no opening. */
  lemma {:induction false} StripLeavesNone(line: string)
    ensures Strip(line).delimiter.None? ==> NoOpening(Strip(line).text)
    decreases |line|
  {
    var r := RoundOn(line);
    match r
    case Clean =>
    case Closed(next) => StripLeavesNone(next);
    case Open(_, _) =>
  }

  /** An output line after which no raw string is open holds no raw-string opening. */
  lemma NoOpeningLeft(lines: seq<string>)
    requires lines != [] && OnLines(lines).1.None?
    ensures |OnLines(lines).0| == |lines| && NoOpening(OnLines(lines).0[|lines| - 1])
  {
    SameLength(lines);
    var before, line := lines[..|lines| - 1], lines[|lines| - 1];
    SameLength(before);
    var waiting := OnLines(before).1;
    if waiting.None? {
      StripLeavesNone(line);
    } else {
      StripLeavesNone(Resumed(line, waiting.value, FindText(line, waiting.value).value));
    }
  }

  // ----- What is kept

  /** Lines without raw strings stay as they are. */
  lemma {:induction false} PlainLinesStay(lines: seq<string>)
    requires forall i :: 0 <= i < |lines| ==> NoOpening(lines[i])
    ensures OnLines(lines) == (lines, None)
  {
    if lines != [] {
      var before, line := lines[..|lines| - 1], lines[|lines| - 1];
      PlainLinesStay(before);
      assert LastOpening(line) == None;
      assert lines == before + [line];
    }
  }

  lemma {:induction false} FindTextFirst(s: string, sub: string, i: nat)
    requires Occurs(s, sub, i)
    ensures FindText(s, sub).Some? && FindText(s, sub).value <= i
    decreases i
  {
    if !Occurs(s, sub, 0) {
      assert i > 0;
      assert s[1..][i - 1..i - 1 + |sub|] == s[i..i + |sub|];
      FindTextFirst(s[1..], sub, i - 1);
    }
  }

  ghost predicate FirstAt(s: string, sub: string, i: nat) {
    Occurs(s, sub, i) && forall k: nat :: k < i ==> !Occurs(s, sub, k)
  }

  lemma FindTextIs(s: string, sub: string, i: nat)
    ensures FindText(s, sub) == Some(i) <==> FirstAt(s, sub, i)
  {
    forall k: nat | Occurs(s, sub, k) ensures FindText(s, sub).Some? && FindText(s, sub).value <= k {
      FindTextFirst(s, sub, k);
    }
  }

  lemma CutClosed(line: string, i: nat, n: nat, d: string, end: nat)
    requires i + n <= |line| && FirstAt(line[i + n..], d, end)
    ensures i + n + end + |d| <= |line| && Cut(line, i, n, d) == Closed(line[..i] + EMPTY + line[i + n + end + |d|..])
  {
    FindTextIs(line[i + n..], d, end);
    assert line[i + n..][end + |d|..] == line[i + n + end + |d|..];
  }

  lemma StripClosed(line: string, next: string)
    requires RoundOn(line) == Closed(next)
    ensures Strip(line) == Strip(next)
  {
  }

  /** Inside a raw string a line is blank up to the first closing delimiter, and blank as a whole without one. */
  lemma InsideLost(line: string, d: string)
    ensures (forall k: nat :: !Occurs(line, d, k)) ==> OnLine(line, Some(d)) == Cleansed(EMPTY, Some(d))
    ensures forall end: nat :: FirstAt(line, d, end) ==> OnLine(line, Some(d)) == Strip(Resumed(line, d, end))
  {
    forall end: nat | FirstAt(line, d, end) ensures FindText(line, d) == Some(end) { FindTextIs(line, d, end); }
  }

  // ----- Openings, character by character

  /** A prefix of length `p`, then delimiter characters, then the bracket that ends the `n` characters at `i`. */
  ghost predicate IsOpening(s: string, i: nat, p: nat, n: nat) {
    && 0 < p == PrefixLength(s, i) < n && i + n <= |s| && s[i + n - 1] == '('
    && forall k :: i + p <= k < i + n - 1 ==> IsDelim(s[k])
  }

  lemma {:induction false} DelimEndIs(s: string, i: nat, e: nat)
    requires i <= e < |s| && !IsDelim(s[e]) && forall k :: i <= k < e ==> IsDelim(s[k])
    ensures DelimEnd(s, i) == e
    decreases e - i
  {
    if i < e { DelimEndIs(s, i + 1, e); }
  }

  lemma {:induction false} DelimEndAll(s: string, i: nat, k: nat)
    requires i <= |s| && i <= k < DelimEnd(s, i)
    ensures IsDelim(s[k])
    decreases |s| - i
  {
    if i < k { DelimEndAll(s, i + 1, k); }
  }

  lemma OpeningIs(s: string, i: nat, p: nat, n: nat)
    requires IsOpening(s, i, p, n)
    ensures OpeningLength(s, i) == n
  {
    DelimEndIs(s, i + p, i + n - 1);
  }

  lemma OpeningForm(s: string, i: nat)
    requires OpeningLength(s, i) > 0
    ensures IsOpening(s, i, PrefixLength(s, i), OpeningLength(s, i))
  {
    var p := PrefixLength(s, i);
    forall k | i + p <= k < i + OpeningLength(s, i) - 1 ensures IsDelim(s[k]) { DelimEndAll(s, i + p, k); }
  }

  /** The `n` characters of `s` at `i` are those of `t` at `j`. */
  ghost predicate Agree(s: string, i: nat, t: string, j: nat, n: nat) {
    i + n <= |s| && j + n <= |t| && forall k :: i <= k < i + n ==> s[k] == t[k - i + j]
  }

  /** An opening depends only on its own characters. */
  lemma SameOpening(s: string, i: nat, t: string, j: nat)
    requires OpeningLength(s, i) > 0 && Agree(s, i, t, j, OpeningLength(s, i))
    ensures OpeningLength(t, j) == OpeningLength(s, i)
  {
    var n, p := OpeningLength(s, i), PrefixLength(s, i);
    OpeningForm(s, i);
    assert s[i] == t[j] && s[i + 1] == t[j + 1] && s[i + 2] == t[j + 2] && (p == 4 ==> s[i + 3] == t[j + 3]);
    forall k | j + p <= k < j + n - 1 ensures IsDelim(t[k]) { assert s[k - j + i] == t[k]; }
    assert s[i + n - 1] == t[j + n - 1];
    OpeningIs(t, j, p, n);
  }

  // ----- A line that leaves a raw string open

  lemma QuotesHideNothing(s: string, k: nat)
    requires OpensAt(s, k)
    ensures OpensAt(s + EMPTY, k)
  {
    SameOpening(s, k, s + EMPTY, k);
  }

  lemma QuotesOpenNothing(s: string, k: nat)
    requires OpensAt(s + EMPTY, k)
    ensures k < |s| && OpensAt(s, k)
  {
    var n := OpeningLength(s + EMPTY, k);
    assert k + n <= |s| by { assert (s + EMPTY)[k + n - 1] == '('; }
    SameOpening(s + EMPTY, k, s, k);
  }

  /** Putting `""` at the end of a text changes none of its openings. */
  lemma QuotesChangeNothing(s: string)
    ensures NoOpening(s + EMPTY) <==> NoOpening(s)
  {
    forall k: nat | OpensAt(s + EMPTY, k) ensures k < |s| && OpensAt(s, k) { QuotesOpenNothing(s, k); }
    forall k: nat | OpensAt(s, k) ensures OpensAt(s + EMPTY, k) { QuotesHideNothing(s, k); }
  }

  /** `next` is `line` with the part from the last opening `i` to a closing quote before `after` cut out. */
  ghost predicate CutFrom(line: string, i: nat, after: nat, next: string) {
    && LastOpening(line) == Some(i) && i < after <= |line| && line[after - 1] == '"'
    && next == line[..i] + EMPTY + line[after..]
  }

  lemma QuoteOpensNothing(s: string, k: nat)
    requires OpensAt(s, k)
    ensures s[k] != '"'
  {
  }

  /** What opens behind the cut did so before. */
  lemma BehindCut(line: string, i: nat, after: nat, next: string, k: nat)
    requires CutFrom(line, i, after, next) && OpensAt(next, k) && k >= i + 2
    ensures OpensAt(line, k - (i + 2) + after)
  {
    var j := k - (i + 2) + after;
    assert forall m :: i + 2 <= m < |next| ==> next[m] == line[m - k + j];
    SameOpening(next, k, line, j);
    if k > i + 2 { assert next[k - 1] == line[j - 1]; }
  }

  /** So nothing does, because the cut starts at the last opening. */
  lemma NoneBehindCut(line: string, i: nat, after: nat, next: string, k: nat)
    requires CutFrom(line, i, after, next) && OpensAt(next, k)
    ensures k < i
  {
    QuoteOpensNothing(next, k);
    if k >= i + 2 { BehindCut(line, i, after, next, k); }
  }

  /** An opening that runs into the cut was one before: it ran into the opening cut out. */
  lemma AcrossCut(line: string, i: nat, after: nat, next: string, k: nat)
    requires CutFrom(line, i, after, next) && OpensAt(next, k) && k < i < k + OpeningLength(next, k)
    ensures OpensAt(line, k)
  {
    var p := PrefixLength(next, k);
    OpeningForm(next, k);
    OpeningForm(line, i);
    PrefixBeforeCut(line, i, after, next, k);
    var q, n := PrefixLength(line, i), OpeningLength(line, i);
    forall m | k + p <= m < i + n - 1 ensures IsDelim(line[m]) {
      if m < i {
        assert next[m] == line[m];
      } else if m < i + q {
        PrefixIsDelim(line, i, m);
      }
    }
    OpeningIs(line, k, p, i + n - k);
    if k > 0 { assert next[k - 1] == line[k - 1]; }
  }

  lemma PrefixIsDelim(s: string, i: nat, m: nat)
    requires i <= m < i + PrefixLength(s, i)
    ensures IsDelim(s[m])
  {
  }

  /** The prefix of such an opening lies before the cut, since a word boundary lies at the cut. */
  lemma PrefixBeforeCut(line: string, i: nat, after: nat, next: string, k: nat)
    requires CutFrom(line, i, after, next) && k < i && PrefixLength(next, k) > 0
    ensures k + PrefixLength(next, k) <= i && PrefixLength(line, k) == PrefixLength(next, k)
  {
    var p := PrefixLength(next, k);
    assert forall m :: 0 <= m < i ==> next[m] == line[m];
    assert next[i] == '"' && !IsWord(line[i - 1]);
    assert next[k + p - 1] == '"' && next[k + p - 2] == 'R';
  }

  /** Every opening left after a cut lies before it and was there already. */
  lemma CutOpensNothing(line: string, i: nat, after: nat, next: string, k: nat)
    requires CutFrom(line, i, after, next) && OpensAt(next, k)
    ensures k < i && OpensAt(line, k)
  {
    NoneBehindCut(line, i, after, next, k);
    if k + OpeningLength(next, k) <= i {
      SameOpening(next, k, line, k);
      if k > 0 { assert next[k - 1] == line[k - 1]; }
    } else {
      AcrossCut(line, i, after, next, k);
    }
  }

  lemma ClosedIsCut(line: string) returns (i: nat, after: nat)
    requires RoundOn(line).Closed?
    ensures CutFrom(line, i, after, RoundOn(line).line)
  {
    i := LastOpening(line).value;
    var n, d := OpeningLength(line, i), ClosingOf(line, i);
    var body := line[i + n..];
    var end := FindText(body, d).value;
    after := i + n + end + |d|;
    assert body[end + |d|..] == line[after..];
    assert line[after - 1] == body[end..end + |d|][|d| - 1] == '"';
  }

  lemma StripOpen(line: string)
    requires RoundOn(line).Open?
    ensures LastOpening(line).Some? && Strip(line).text == line[..LastOpening(line).value] + EMPTY
  {
  }

  /** An opening left after a round is an opening of the line, with the same text before it. */
  lemma EarlierThanCut(line: string, i: nat)
    requires RoundOn(line).Closed? && OpensAt(RoundOn(line).line, i)
    ensures i < |line| && OpensAt(line, i) && RoundOn(line).line[..i] == line[..i]
  {
    var at, after := ClosedIsCut(line);
    CutOpensNothing(line, at, after, RoundOn(line).line, i);
  }

  /** A line that leaves a raw string open is cut at one of its own openings. */
  lemma {:induction false} OpenCutsAtOpening(line: string) returns (i: nat)
    requires Strip(line).delimiter.Some?
    ensures i < |line| && OpensAt(line, i) && Strip(line).text == line[..i] + EMPTY
    decreases |line|
  {
    var r := RoundOn(line);
    if r.Open? {
      StripOpen(line);
      i := LastOpening(line).value;
    } else {
      StripClosed(line, r.line);
      i := OpenCutsAtOpening(r.line);
      EarlierThanCut(line, i);
    }
  }

  /** And still holds a raw string exactly when one lies wholly before that opening. */
  lemma OpenKeepsEarlier(line: string) returns (i: nat)
    requires Strip(line).delimiter.Some?
    ensures i < |line| && OpensAt(line, i) && Strip(line).text == line[..i] + EMPTY
    ensures NoOpening(Strip(line).text) <==> NoOpening(line[..i])
  {
    i := OpenCutsAtOpening(line);
    QuotesChangeNothing(line[..i]);
  }

  /** The text the inner loop starts from, unless the line lies inside a raw string as a whole. */
  function Begun(line: string, waiting: Option<string>): Option<string> {
    match waiting
    case None => Some(line)
    case Some(d) =>
      match FindText(line, d)
      case None => None
      case Some(end) => Some(Resumed(line, d, end))
  }

  /** An output text left open: `""` alone, or cut at an opening of the text the loop started from. */
  ghost predicate LeftOpen(begun: Option<string>, text: string, i: nat) {
    match begun
    case None => text == EMPTY && NoOpening(text)
    case Some(start) =>
      && i < |start| && OpensAt(start, i) && text == start[..i] + EMPTY
      && (NoOpening(text) <==> NoOpening(start[..i]))
  }

  lemma LineKeepsEarlier(line: string, waiting: Option<string>) returns (i: nat)
    requires OnLine(line, waiting).delimiter.Some?
    ensures LeftOpen(Begun(line, waiting), OnLine(line, waiting).text, i)
  {
    var begun := Begun(line, waiting);
    if begun.Some? {
      i := OpenKeepsEarlier(begun.value);
    } else {
      i := 0;
      QuotesChangeNothing([]);
      assert [] + EMPTY == EMPTY;
    }
  }

  lemma LastLine(lines: seq<string>)
    requires lines != []
    ensures var last := |lines| - 1;
            var r := OnLine(lines[last], OnLines(lines[..last]).1);
            |OnLines(lines).0| == |lines| && OnLines(lines).0[last] == r.text && OnLines(lines).1 == r.delimiter
  {
    SameLength(lines[..|lines| - 1]);
  }

  /** The same for the lines of a file, also where one resumes after a closing delimiter. */
  lemma FileKeepsEarlier(lines: seq<string>) returns (i: nat)
    requires lines != [] && OnLines(lines).1.Some?
    ensures var last := |lines| - 1;
            |OnLines(lines).0| == |lines| &&
            LeftOpen(Begun(lines[last], OnLines(lines[..last]).1), OnLines(lines).0[last], i)
  {
    LastLine(lines);
    i := LineKeepsEarlier(lines[|lines| - 1], OnLines(lines[..|lines| - 1]).1);
  }

  // ----- Lines where it happens

  lemma PlainOpening(s: string, k: nat)
    requires k + 2 < |s| && s[k] == 'R' && s[k + 1] == '"' && s[k + 2] == '('
    requires k == 0 || !IsWord(s[k - 1])
    ensures OpensAt(s, k) && OpeningLength(s, k) == 3 && ClosingOf(s, k) == ")\""
  {
    assert s[k + 2..k + 2] == "";
  }

  lemma NotFound(c: char, d: string)
    requires |d| >= 2
    ensures FindText([c], d) == None
  {
    assert [c][1..] == [];
  }

  lemma OpenedLast(x: string, tail: string)
    requires |tail| == 4 && tail[0] == 'R' && tail[1] == '"' && tail[2] == '(' && tail[3] == 'b'
    requires x == [] || !IsWord(x[|x| - 1])
    ensures LastOpening(x + tail) == Some(|x|)
  {
    PlainOpening(x + tail, |x|);
  }

  lemma OpenedAtEnd(x: string, tail: string)
    requires tail == "R\"(b" && (x == [] || !IsWord(x[|x| - 1]))
    ensures RoundOn(x + tail) == Open(x + EMPTY, ")\"")
  {
    var line := x + tail;
    OpenedLast(x, tail);
    PlainOpening(line, |x|);
    assert line[|x| + 3..] == ['b'];
    NotFound('b', ")\"");
    assert line[..|x|] == x;
  }

  /** Whatever raw string a line holds stays when the line ends by opening another one. */
  lemma EarlierRawStringStays(x: string)
    requires !NoOpening(x) && !IsWord(x[|x| - 1])
    ensures !NoOpening(Strip(x + "R\"(b").text)
  {
    OpenedAtEnd(x, "R\"(b");
    QuotesChangeNothing(x);
  }
}
