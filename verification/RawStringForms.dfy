/**
  What `CleanseRawStrings` does, read off the shape of the lines: openings are
  given by their prefix and delimiter, and bodies by where the closing delimiter
  first occurs.
*/
module RawStringForms {
  import opened Options
  import opened Chars
  import opened RawStrings

  predicate IsPrefix(p: string) {
    p == "R" || p == "u8R" || p == "uR" || p == "UR" || p == "LR"
  }

  /** What a delimiter cannot hold: white space, brackets and backslashes. */
  predicate Ends(c: char) {
    || c == ' ' || c == '\t' || c == '\n' || c == '\r' || c == '\U{000B}' || c == '\U{000C}'
    || c == '(' || c == ')' || c == '\\'
  }

  predicate AllDelim(w: string) {
    forall k :: 0 <= k < |w| ==> !Ends(w[k])
  }

  /** A word may begin after `h`. */
  predicate AtBoundary(h: string) {
    h == [] || !IsWord(h[|h| - 1])
  }

  function Opening(p: string, w: string): string {
    p + ("\"" + (w + "("))
  }

  function Closing(w: string): string {
    ")" + (w + "\"")
  }

  // ----- Openings

  lemma PrefixHere(s: string, i: nat, p: string)
    requires IsPrefix(p) && Agree(s, i, p, 0, |p|) && i + |p| < |s| && s[i + |p|] == '"'
    ensures PrefixLength(s, i) == |p| + 1
  {
    assert s[i] == p[0] && (|p| > 1 ==> s[i + 1] == p[1]) && (|p| > 2 ==> s[i + 2] == p[2]);
  }

  lemma PrefixIs(s: string, i: nat)
    requires PrefixLength(s, i) > 0
    ensures IsPrefix(s[i..i + PrefixLength(s, i) - 1]) && s[i + PrefixLength(s, i) - 1] == '"'
  {
    var p := s[i..i + PrefixLength(s, i) - 1];
    if |p| == 1 {
      assert p == "R";
    } else if |p| == 2 {
      assert p == [s[i], 'R'];
    } else {
      assert p == "u8R";
    }
  }

  /** The characters of an opening with prefix `p` and delimiter `w` stand at `i`. */
  ghost predicate OpeningAt(line: string, i: nat, p: string, w: string) {
    && IsPrefix(p) && AllDelim(w) && i + |p| + |w| + 1 < |line|
    && Agree(line, i, p, 0, |p|) && line[i + |p|] == '"'
    && Agree(line, i + |p| + 1, w, 0, |w|) && line[i + |p| + 1 + |w|] == '('
  }

  lemma OpeningAtLength(line: string, i: nat, p: string, w: string)
    requires OpeningAt(line, i, p, w)
    ensures PrefixLength(line, i) == |p| + 1 && OpeningLength(line, i) == |p| + |w| + 2
  {
    PrefixHere(line, i, p);
    forall k | i + |p| + 1 <= k < i + |p| + 1 + |w| ensures IsDelim(line[k]) {
      assert line[k] == w[k - (i + |p| + 1)];
    }
    OpeningIs(line, i, |p| + 1, |p| + |w| + 2);
  }

  lemma ClosingIs(line: string, i: nat, p: string, w: string)
    requires OpensAt(line, i) && OpeningAt(line, i, p, w)
    ensures ClosingOf(line, i) == Closing(w)
  {
    OpeningAtLength(line, i, p, w);
    var m := i + |p| + 1;
    assert line[m..m + |w|] == w;
    Assoc(")", w, "\"");
  }

  lemma OpeningChars(h: string, p: string, w: string, r: string)
    requires IsPrefix(p) && AllDelim(w)
    ensures OpeningAt(h + (Opening(p, w) + r), |h|, p, w)
  {
  }

  /** Behind a boundary, a prefix, a quote, a delimiter and a bracket open a raw string with that delimiter. */
  lemma OpensHere(line: string, h: string, p: string, w: string, r: string)
    requires line == h + (Opening(p, w) + r) && AtBoundary(h) && IsPrefix(p) && AllDelim(w)
    ensures OpensAt(line, |h|) && OpeningLength(line, |h|) == |Opening(p, w)| && ClosingOf(line, |h|) == Closing(w)
  {
    OpeningChars(h, p, w, r);
    OpeningAtLength(line, |h|, p, w);
    assert |h| > 0 ==> line[|h| - 1] == h[|h| - 1];
    ClosingIs(line, |h|, p, w);
  }

  lemma Assoc<T>(a: seq<T>, b: seq<T>, c: seq<T>)
    ensures (a + b) + c == a + (b + c)
  {
  }

  /** And nothing else does. */
  lemma OpensOnlyHere(s: string, i: nat) returns (p: string, w: string)
    requires OpensAt(s, i)
    ensures i <= |s| && AtBoundary(s[..i]) && IsPrefix(p) && AllDelim(w)
    ensures Opening(p, w) <= s[i..]
  {
    var m, n := PrefixLength(s, i), OpeningLength(s, i);
    OpeningForm(s, i);
    PrefixIs(s, i);
    p, w := s[i..i + m - 1], s[i + m..i + n - 1];
    FourPieces(s, i, m, n);
  }

  lemma FourPieces(s: string, i: nat, m: nat, n: nat)
    requires 0 < m < n && i + n <= |s| && s[i + m - 1] == '"' && s[i + n - 1] == '('
    ensures Opening(s[i..i + m - 1], s[i + m..i + n - 1]) <= s[i..]
  {
    assert s[i..][..n] == Opening(s[i..i + m - 1], s[i + m..i + n - 1]);
  }

  // ----- Lines

  /** No raw string opens in `line` behind `i`. */
  ghost predicate NoneAfter(line: string, i: nat) {
    forall k: nat :: i < k < |line| ==> !OpensAt(line, k)
  }

  lemma LastHere(line: string, i: nat)
    requires OpensAt(line, i) && i < |line| && NoneAfter(line, i)
    ensures LastOpening(line) == Some(i)
  {
  }

  lemma Pieces(h: string, o: string, b: string, c: string, t: string)
    ensures var line := h + (o + (b + (c + t)));
            && line[..|h|] == h && line[|h| + |o|..] == b + (c + t)
            && |h| + |o| + |b| + |c| <= |line| && line[|h| + |o| + |b| + |c|..] == t
  {
  }

  lemma CutHere(line: string, h: string, o: string, b: string, c: string, t: string)
    requires line == h + (o + (b + (c + t))) && FirstAt(b + (c + t), c, |b|)
    ensures Cut(line, |h|, |o|, c) == Closed(h + EMPTY + t)
  {
    Pieces(h, o, b, c, t);
    CutClosed(line, |h|, |o|, c, |b|);
  }

  lemma RoundCuts(line: string, i: nat, n: nat, c: string)
    requires LastOpening(line) == Some(i) && OpeningLength(line, i) == n && ClosingOf(line, i) == c
    ensures RoundOn(line) == Cut(line, i, n, c)
  {
  }

  /** The last raw string of a line loses all from its prefix to its first closing delimiter, and nothing else. */
  lemma RawStringLost(h: string, p: string, w: string, b: string, t: string)
    requires AtBoundary(h) && IsPrefix(p) && AllDelim(w)
    requires FirstAt(b + (Closing(w) + t), Closing(w), |b|)
    requires NoneAfter(h + (Opening(p, w) + (b + (Closing(w) + t))), |h|)
    ensures Strip(h + (Opening(p, w) + (b + (Closing(w) + t)))) == Strip(h + EMPTY + t)
  {
    var body := b + (Closing(w) + t);
    var line := h + (Opening(p, w) + body);
    OpensHere(line, h, p, w, body);
    LastHere(line, |h|);
    RoundCuts(line, |h|, |Opening(p, w)|, Closing(w));
    CutHere(line, h, Opening(p, w), b, Closing(w), t);
    StripClosed(line, h + EMPTY + t);
  }

  /** `d` is nowhere in `s`. */
  ghost predicate Without(s: string, d: string) {
    forall k: nat :: !Occurs(s, d, k)
  }

  lemma WaitsHere(line: string, h: string, o: string, b: string, c: string)
    requires line == h + (o + b) && Without(b, c)
    requires LastOpening(line) == Some(|h|) && OpeningLength(line, |h|) == |o| && ClosingOf(line, |h|) == c
    ensures RoundOn(line) == Open(h + EMPTY, c)
  {
    assert line[|h| + |o|..] == b && line[..|h|] == h;
  }

  /** In `line` the last raw string opens behind `h` and is not closed. */
  ghost predicate OpensLast(line: string, h: string, p: string, w: string, b: string) {
    && line == h + (Opening(p, w) + b) && AtBoundary(h) && IsPrefix(p) && AllDelim(w)
    && Without(b, Closing(w)) && NoneAfter(line, |h|)
  }

  /** Such a line ends at the prefix and waits for exactly that delimiter. */
  lemma RawStringWaits(line: string, h: string, p: string, w: string, b: string)
    requires OpensLast(line, h, p, w, b)
    ensures Strip(line) == Cleansed(h + EMPTY, Some(Closing(w)))
  {
    OpensHere(line, h, p, w, b);
    LastHere(line, |h|);
    WaitsHere(line, h, Opening(p, w), b, Closing(w));
  }

  lemma {:induction false} LeadingSpaceIs(a: string, x: string)
    requires AllSpace(a) && x != [] && !IsSpace(x[0])
    ensures LeadingSpace(a + x) == |a|
  {
    if a == [] {
      assert a + x == x;
    } else {
      LeadingSpaceIs(a[1..], x);
      assert (a + x)[1..] == a[1..] + x;
    }
  }

  /** `line` starts with the space `a`, and `d` first occurs in it before `t`. */
  ghost predicate ClosesFirst(line: string, d: string, a: string, t: string) {
    && a < line && AllSpace(a) && !IsSpace(line[|a|])
    && |d| + |t| <= |line| && FirstAt(line, d, |line| - |t| - |d|) && t == line[|line| - |t|..]
  }

  /** A line inside a raw string keeps its leading space and what follows the first closing delimiter. */
  lemma RawStringEnds(line: string, d: string, a: string, t: string)
    requires ClosesFirst(line, d, a, t)
    ensures OnLine(line, Some(d)) == Strip(a + EMPTY + t)
  {
    InsideLost(line, d);
    LeadingSpaceIs(a, line[|a|..]);
    assert a + line[|a|..] == line;
    assert Resumed(line, d, |line| - |t| - |d|) == a + EMPTY + t;
  }

  // ----- Files

  /** What is waited for before line `k`. */
  function WaitingAt(lines: seq<string>, k: nat): Option<string>
    requires k <= |lines|
  {
    OnLines(lines[..k]).1
  }

  lemma WaitingNext(lines: seq<string>, k: nat)
    requires k < |lines|
    ensures WaitingAt(lines, k + 1) == OnLine(lines[k], WaitingAt(lines, k)).delimiter
  {
    assert lines[..k + 1][..k] == lines[..k];
  }

  /** One more line leaves the output before it as it is. */
  lemma OutputKept(lines: seq<string>, k: nat)
    requires k + 1 < |lines|
    ensures |OnLines(lines).0| == |lines| && |OnLines(lines[..|lines| - 1]).0| == |lines| - 1
    ensures OnLines(lines).0[k] == OnLines(lines[..|lines| - 1]).0[k]
  {
    SameLength(lines[..|lines| - 1]);
  }

  lemma {:induction false} OutputLine(lines: seq<string>, k: nat)
    requires k < |lines|
    ensures |OnLines(lines).0| == |lines| && OnLines(lines).0[k] == OnLine(lines[k], WaitingAt(lines, k)).text
    decreases |lines|
  {
    var last := |lines| - 1;
    if k == last {
      LastLine(lines);
    } else {
      OutputKept(lines, k);
      OutputLine(lines[..last], k);
      assert lines[..last][..k] == lines[..k];
    }
  }

  /** Lines `i` up to but not including `j` lie inside a raw string that `d` closes. */
  ghost predicate Inside(lines: seq<string>, i: nat, j: nat, d: string) {
    i <= j <= |lines| && WaitingAt(lines, i) == Some(d) && forall k :: i <= k < j ==> Without(lines[k], d)
  }

  lemma {:induction false} StaysInside(lines: seq<string>, i: nat, j: nat, d: string)
    requires Inside(lines, i, j, d)
    ensures WaitingAt(lines, j) == Some(d)
    decreases j
  {
    if i < j {
      StaysInside(lines, i, j - 1, d);
      InsideNext(lines, j - 1, d);
    }
  }

  lemma InsideNext(lines: seq<string>, k: nat, d: string)
    requires k < |lines| && WaitingAt(lines, k) == Some(d) && Without(lines[k], d)
    ensures WaitingAt(lines, k + 1) == Some(d)
  {
    WaitingNext(lines, k);
    InsideLost(lines[k], d);
  }

  /** The line of an open raw string, the lines inside it and the line that closes it. */
  ghost predicate OverLines(lines: seq<string>, i: nat, j: nat, h: string, p: string, w: string, b: string,
                            a: string, t: string)
  {
    && i < j < |lines| && WaitingAt(lines, i) == None && OpensLast(lines[i], h, p, w, b)
    && (forall k :: i < k < j ==> Without(lines[k], Closing(w))) && ClosesFirst(lines[j], Closing(w), a, t)
  }

  lemma WaitsInside(lines: seq<string>, i: nat, j: nat, h: string, p: string, w: string, b: string,
                    a: string, t: string, k: nat)
    requires OverLines(lines, i, j, h, p, w, b, a, t) && i < k <= j
    ensures WaitingAt(lines, k) == Some(Closing(w))
  {
    RawStringWaits(lines[i], h, p, w, b);
    WaitingNext(lines, i);
    StaysInside(lines, i + 1, k, Closing(w));
  }

  /**
    A raw string over several lines: the text before it, an empty literal on each
    of its lines, and the text behind it with the leading space of the last line
    are left, and that text is treated in its turn.
  */
  lemma RawStringOverLines(lines: seq<string>, i: nat, j: nat, h: string, p: string, w: string, b: string,
                           a: string, t: string)
    requires OverLines(lines, i, j, h, p, w, b, a, t)
    ensures |OnLines(lines).0| == |lines| && OnLines(lines).0[i] == h + EMPTY
    ensures forall k :: i < k < j ==> OnLines(lines).0[k] == EMPTY
    ensures OnLines(lines).0[j] == Strip(a + EMPTY + t).text
    ensures WaitingAt(lines, j + 1) == Strip(a + EMPTY + t).delimiter
  {
    OutputLine(lines, i);
    RawStringWaits(lines[i], h, p, w, b);
    forall k | i < k < j ensures OnLines(lines).0[k] == EMPTY {
      OutputLine(lines, k);
      WaitsInside(lines, i, j, h, p, w, b, a, t, k);
      InsideLost(lines[k], Closing(w));
    }
    OutputLine(lines, j);
    WaitsInside(lines, i, j, h, p, w, b, a, t, j);
    RawStringEnds(lines[j], Closing(w), a, t);
    WaitingNext(lines, j);
  }
}
