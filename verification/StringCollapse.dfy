/** How cpplint's `CleansedLines` collapses string and character literals on a line. */
module StringCollapse {
  import opened Options
  import opened Chars

  predicate IsHex(c: char) {
    IsDigit(c) || 'a' <= c <= 'f' || 'A' <= c <= 'F'
  }

  predicate AllHex(s: string) {
    forall k :: 0 <= k < |s| ==> IsHex(s[k])
  }

  predicate IsQuote(c: char) {
    c == '\'' || c == '"'
  }

  predicate NoQuotes(s: string) {
    forall k :: 0 <= k < |s| ==> !IsQuote(s[k])
  }

  /** The pattern `^\s*#\s*include\s*([<"])([^>"]*)[>"].*$`. */
  predicate IsInclude(line: string) {
    var s := TrimLeft(line);
    s != [] && s[0] == '#' &&
    var t := TrimLeft(s[1..]);
    |t| >= 7 && t[..7] == "include" &&
    var u := TrimLeft(t[7..]);
    u != [] && (u[0] == '<' || u[0] == '"') && ('>' in u[1..] || '"' in u[1..])
  }

  function RunLength(s: string, p: char -> bool): (n: nat)
    ensures n <= |s|
  {
    if s != [] && p(s[0]) then 1 + RunLength(s[1..], p) else 0
  }

  /** The length of an escape `\\([abfnrtv?"\\\']|\d+|x[0-9a-fA-F]+)` at the start of `s`, or 0. */
  function EscapeLength(s: string): (n: nat)
    ensures n <= |s|
  {
    if |s| < 2 || s[0] != '\\' then 0
    else if s[1] in "abfnrtv?\"\\'" then 2
    else if IsDigit(s[1]) then 1 + RunLength(s[1..], IsDigit)
    else if s[1] == 'x' && |s| > 2 && IsHex(s[2]) then 2 + RunLength(s[2..], IsHex)
    else 0
  }

  function WithoutEscapes(s: string): string
    decreases |s|
  {
    if s == [] then []
    else if EscapeLength(s) > 0 then WithoutEscapes(s[EscapeLength(s)..])
    else [s[0]] + WithoutEscapes(s[1..])
  }

  /** The index of the first quote of either kind, if there is one. */
  function FirstQuote(s: string): (r: Option<nat>)
    ensures match r
            case None => NoQuotes(s)
            case Some(i) => i < |s| && IsQuote(s[i]) && NoQuotes(s[..i])
  {
    if s == [] then None
    else if IsQuote(s[0]) then Some(0)
    else
      match FirstQuote(s[1..])
      case None => None
      case Some(i) => assert s[..i + 1] == [s[0]] + s[1..][..i]; Some(i + 1)
  }

  /** `s.find(c)` */
  function Find(s: string, c: char): (r: Option<nat>)
    ensures match r
            case None => c !in s
            case Some(i) => i < |s| && s[i] == c && c !in s[..i]
  {
    if s == [] then None
    else if s[0] == c then Some(0)
    else
      match Find(s[1..], c)
      case None => None
      case Some(i) => assert s[..i + 1] == [s[0]] + s[1..][..i]; Some(i + 1)
  }

  /** The pattern `(?:0[bBxX]?|[1-9])[0-9a-fA-F]*` over the whole of `s`. */
  predicate IsNumberStart(s: string) {
    s != [] && IsDigit(s[0]) &&
    AllHex(if s[0] == '0' && |s| > 1 && s[1] in "bBxX" then s[2..] else s[1..])
  }

  /** The search `\b(?:0[bBxX]?|[1-9])[0-9a-fA-F]*$`. */
  predicate EndsInNumber(head: string) {
    exists k :: 0 <= k < |head| && (k == 0 || !IsWord(head[k - 1])) && IsNumberStart(head[k..])
  }

  /** The length of the longest match of `(?:\'?[0-9a-zA-Z_])*` at the start of `s`. */
  function LiteralLength(s: string): (n: nat)
    ensures n <= |s|
  {
    if s != [] && IsWord(s[0]) then 1 + LiteralLength(s[1..])
    else if |s| >= 2 && s[0] == '\'' && IsWord(s[1]) then 2 + LiteralLength(s[2..])
    else 0
  }

  function WithoutTicks(s: string): string {
    if s == [] then []
    else if s[0] == '\'' then WithoutTicks(s[1..])
    else [s[0]] + WithoutTicks(s[1..])
  }

  // ----- The behaviour

  /** One round of the loop: what is output, and the text left to treat, if the loop goes on. */
  function Round(s: string): (r: (string, Option<string>))
    ensures r.1.Some? ==> |r.1.value| < |s|
  {
    match FirstQuote(s)
    case None => (s, None)
    case Some(h) =>
      var head, tail := s[..h], s[h + 1..];
      if s[h] == '\'' && EndsInNumber(head) then
        var n := LiteralLength(s[h..]);
        (head + WithoutTicks(s[h..][..n]), Some(s[h..][n..]))
      else
        match Find(tail, s[h])
        case None => (s, None)
        case Some(e) => (head + [s[h], s[h]], Some(tail[e + 1..]))
  }

  function Collapse(s: string): string
    decreases |s|
  {
    var (out, rest) := Round(s);
    match rest
    case None => out
    case Some(t) => out + Collapse(t)
  }

  function CollapseLine(line: string): string {
    if IsInclude(line) then line else Collapse(WithoutEscapes(line))
  }

  // ----- The code

  method CollapseStrings(line: string) returns (collapsed: string)
    ensures collapsed == CollapseLine(line)
  {
    if IsInclude(line) {
      return line;
    }
    collapsed := CollapseQuotes(WithoutEscapes(line));
  }

  method CollapseQuotes(line: string) returns (collapsed: string)
    ensures collapsed == Collapse(line)
  {
    var elided := line;
    collapsed := "";
    var more := true;
    assert collapsed + Collapse(elided) == Collapse(elided);
    while more
      invariant Collapse(line) == if more then collapsed + Collapse(elided) else collapsed
      decreases |elided|, more
    {
      var out, rest := CollapseFirst(elided);
      Regroup(collapsed, elided, out, rest);
      collapsed := collapsed + out;
      more := rest.Some?;
      if more {
        elided := rest.value;
      }
    }
  }

  lemma Regroup(done: string, s: string, out: string, rest: Option<string>)
    requires (out, rest) == Round(s)
    ensures done + Collapse(s) == if rest.None? then done + out else (done + out) + Collapse(rest.value)
  {
    if rest.Some? {
      CollapseStep(s, out, rest.value);
      Assoc(done, out, Collapse(rest.value));
    }
  }

  lemma Assoc(a: string, b: string, c: string)
    ensures a + (b + c) == (a + b) + c
  {
  }

  lemma CollapseStep(s: string, out: string, t: string)
    requires Round(s) == (out, Some(t))
    ensures Collapse(s) == out + Collapse(t)
  {
  }

  /** The body of the loop: treats the first quote. */
  method CollapseFirst(elided: string) returns (out: string, rest: Option<string>)
    ensures (out, rest) == Round(elided)
  {
    var first := FirstQuote(elided);
    if first.None? {
      return elided, None;
    }
    var h := first.value;
    var head, quote, tail := elided[..h], elided[h], elided[h + 1..];
    if quote == '"' {
      var second := Find(tail, '"');
      if second.None? {
        return elided, None;
      }
      return head + "\"\"", Some(tail[second.value + 1..]);
    } else if EndsInNumber(head) {
      var text := "'" + tail;
      assert text == elided[h..];
      var n := LiteralLength(text);
      return head + WithoutTicks(text[..n]), Some(text[n..]);
    } else {
      var second := Find(tail, '\'');
      if second.None? {
        return elided, None;
      }
      return head + "''", Some(tail[second.value + 1..]);
    }
  }

  // ----- What is left of a line

  /** `a` is `b` with some characters left out. */
  ghost predicate Subsequence(a: string, b: string) {
    || a == []
    || (b != [] && ((a[0] == b[0] && Subsequence(a[1..], b[1..])) || Subsequence(a, b[1..])))
  }

  lemma {:induction false} SubsequenceSelf(a: string)
    ensures Subsequence(a, a)
  {
    if a != [] { SubsequenceSelf(a[1..]); }
  }

  lemma {:induction false} SubsequenceConcat(a: string, b: string, c: string, d: string)
    requires Subsequence(a, b) && Subsequence(c, d)
    ensures Subsequence(a + c, b + d)
    decreases |b|
  {
    if b == [] {
      assert a + c == c && b + d == d;
    } else if a != [] && a[0] == b[0] && Subsequence(a[1..], b[1..]) {
      SubsequenceConcat(a[1..], b[1..], c, d);
      assert (a + c)[1..] == a[1..] + c && (b + d)[1..] == b[1..] + d;
    } else {
      SubsequenceConcat(a, b[1..], c, d);
      assert (b + d)[1..] == b[1..] + d;
    }
  }

  lemma {:induction false} WithoutTicksSubsequence(s: string)
    ensures Subsequence(WithoutTicks(s), s)
    ensures forall k :: 0 <= k < |WithoutTicks(s)| ==> WithoutTicks(s)[k] != '\''
  {
    if s != [] {
      WithoutTicksSubsequence(s[1..]);
      if s[0] == '\'' {
        assert WithoutTicks(s) == WithoutTicks(s[1..]);
      } else {
        assert WithoutTicks(s)[1..] == WithoutTicks(s[1..]);
      }
    }
  }

  lemma {:induction false} WithoutEscapesSubsequence(s: string)
    ensures Subsequence(WithoutEscapes(s), s)
    decreases |s|
  {
    if s != [] {
      var n := EscapeLength(s);
      if n > 0 {
        WithoutEscapesSubsequence(s[n..]);
        SubsequenceConcat([], s[..n], WithoutEscapes(s[n..]), s[n..]);
        assert s[..n] + s[n..] == s && [] + WithoutEscapes(s[n..]) == WithoutEscapes(s);
      } else {
        WithoutEscapesSubsequence(s[1..]);
        assert WithoutEscapes(s)[1..] == WithoutEscapes(s[1..]);
      }
    }
  }

  lemma TwoQuotes(q: char, tail: string, e: nat)
    requires e < |tail| && tail[e] == q
    ensures Subsequence([q, q], [q] + tail[..e + 1])
  {
    var t := tail[..e + 1];
    assert t == tail[..e] + [q];
    SubsequenceSelf([q]);
    SubsequenceConcat([], tail[..e], [q], [q]);
    assert [] + [q] == [q];
    SubsequenceConcat([q], [q], [q], t);
    assert [q] + [q] == [q, q];
  }

  lemma DigitsSubsequence(s: string, h: nat, n: nat)
    requires h <= h + n <= |s|
    ensures Subsequence(s[..h] + WithoutTicks(s[h..][..n]), s[..h + n]) && s[h..][n..] == s[h + n..]
  {
    SubsequenceSelf(s[..h]);
    WithoutTicksSubsequence(s[h..][..n]);
    SubsequenceConcat(s[..h], s[..h], WithoutTicks(s[h..][..n]), s[h..][..n]);
    assert s[..h + n] == s[..h] + s[h..][..n];
  }

  lemma LiteralSubsequence(s: string, h: nat, e: nat)
    requires h + 1 + e < |s| && s[h + 1..][e] == s[h]
    ensures Subsequence(s[..h] + [s[h], s[h]], s[..h + e + 2]) && s[h + 1..][e + 1..] == s[h + e + 2..]
  {
    var tail := s[h + 1..];
    SubsequenceSelf(s[..h]);
    TwoQuotes(s[h], tail, e);
    SubsequenceConcat(s[..h], s[..h], [s[h], s[h]], [s[h]] + tail[..e + 1]);
    assert s[..h + e + 2] == s[..h] + ([s[h]] + tail[..e + 1]);
  }

  /** What a round outputs is a subsequence of what it consumes. */
  lemma RoundSubsequence(s: string)
    ensures var (out, rest) := Round(s);
            match rest
            case None => out == s
            case Some(t) => |t| < |s| && s[|s| - |t|..] == t && Subsequence(out, s[..|s| - |t|])
  {
    var first := FirstQuote(s);
    if first.Some? {
      var h := first.value;
      if s[h] == '\'' && EndsInNumber(s[..h]) {
        DigitsSubsequence(s, h, LiteralLength(s[h..]));
      } else {
        var second := Find(s[h + 1..], s[h]);
        if second.Some? { LiteralSubsequence(s, h, second.value); }
      }
    }
  }

  lemma {:induction false} CollapseSubsequence(s: string)
    ensures Subsequence(Collapse(s), s)
    decreases |s|
  {
    RoundSubsequence(s);
    var (out, rest) := Round(s);
    match rest
    case None => SubsequenceSelf(s);
    case Some(t) =>
      CollapseSubsequence(t);
      SubsequenceConcat(out, s[..|s| - |t|], Collapse(t), t);
      assert s == s[..|s| - |t|] + t;
  }

  // ----- What literals are left

  /** Every quote has its partner next to it. */
  predicate OnlyEmptyLiterals(s: string)
    decreases |s|
  {
    if s == [] then true
    else if !IsQuote(s[0]) then OnlyEmptyLiterals(s[1..])
    else |s| >= 2 && s[1] == s[0] && OnlyEmptyLiterals(s[2..])
  }

  /** Nothing, or a tail of `s` from a quote that does not come again. */
  predicate UnmatchedTail(b: string, s: string) {
    b == [] || (IsQuote(b[0]) && b[0] !in b[1..] && |b| <= |s| && s[|s| - |b|..] == b)
  }

  lemma {:induction false} PrependPlain(a: string, s: string)
    requires NoQuotes(a) && OnlyEmptyLiterals(s)
    ensures OnlyEmptyLiterals(a + s)
  {
    if a == [] {
      assert a + s == s;
    } else {
      PrependPlain(a[1..], s);
      assert (a + s)[1..] == a[1..] + s;
    }
  }

  lemma EmptyLiteralFirst(q: char, s: string)
    requires IsQuote(q) && OnlyEmptyLiterals(s)
    ensures OnlyEmptyLiterals([q, q] + s)
  {
    assert ([q, q] + s)[2..] == s;
  }

  lemma PlainIsEmptyLiterals(s: string)
    requires NoQuotes(s)
    ensures OnlyEmptyLiterals(s)
  {
    PrependPlain(s, []);
    assert s + [] == s;
  }

  lemma {:induction false} LiteralHasNoOtherQuote(s: string)
    ensures forall k :: 0 <= k < LiteralLength(s) ==> s[k] != '"'
  {
    if s != [] && IsWord(s[0]) {
      LiteralHasNoOtherQuote(s[1..]);
      assert forall k :: 1 <= k < LiteralLength(s) ==> s[k] == s[1..][k - 1];
    } else if |s| >= 2 && s[0] == '\'' && IsWord(s[1]) {
      LiteralHasNoOtherQuote(s[2..]);
      assert forall k :: 2 <= k < LiteralLength(s) ==> s[k] == s[2..][k - 2];
    }
  }

  lemma {:induction false} WithoutTicksChars(s: string, c: char)
    requires c in WithoutTicks(s)
    ensures c in s && c != '\''
  {
    if s[0] == '\'' || c in WithoutTicks(s[1..]) {
      WithoutTicksChars(s[1..], c);
      assert c in s[1..];
    }
  }

  lemma DigitsPlain(s: string)
    ensures NoQuotes(WithoutTicks(s[..LiteralLength(s)]))
  {
    var t := s[..LiteralLength(s)];
    LiteralHasNoOtherQuote(s);
    forall k | 0 <= k < |WithoutTicks(t)| ensures !IsQuote(WithoutTicks(t)[k]) {
      WithoutTicksChars(t, WithoutTicks(t)[k]);
    }
  }

  /** One round adds only plain text and empty literals. */
  lemma RoundEmpties(s: string, more: string)
    requires Round(s).1.Some? && OnlyEmptyLiterals(more)
    ensures OnlyEmptyLiterals(Round(s).0 + more)
  {
    var h := FirstQuote(s).value;
    var head, out := s[..h], Round(s).0;
    if s[h] == '\'' && EndsInNumber(head) {
      DigitsPlain(s[h..]);
      PrependPlain(out, more);
    } else {
      EmptyLiteralFirst(s[h], more);
      PrependPlain(head, [s[h], s[h]] + more);
      assert out + more == head + ([s[h], s[h]] + more);
    }
  }

  lemma LastRoundEmpties(s: string) returns (a: string, b: string)
    requires Round(s).1.None?
    ensures s == a + b && OnlyEmptyLiterals(a) && UnmatchedTail(b, s)
  {
    match FirstQuote(s)
    case None =>
      a, b := s, [];
      PlainIsEmptyLiterals(s);
    case Some(h) =>
      a, b := s[..h], s[h..];
      PlainIsEmptyLiterals(a);
      assert b[1..] == s[h + 1..];
  }

  /** The result is text with only empty literals, then what follows an unmatched quote, as it was. */
  lemma {:induction false} CollapseEmpties(s: string) returns (a: string, b: string)
    ensures Collapse(s) == a + b && OnlyEmptyLiterals(a) && UnmatchedTail(b, s)
    decreases |s|
  {
    var (out, rest) := Round(s);
    RoundSubsequence(s);
    match rest
    case None =>
      a, b := LastRoundEmpties(s);
    case Some(t) =>
      a, b := CollapseEmpties(t);
      CollapseMore(s, out, t, a, b);
      RoundEmpties(s, a);
      TailOfTail(b, t, s);
      a := out + a;
  }

  lemma CollapseMore(s: string, out: string, t: string, a: string, b: string)
    requires Round(s) == (out, Some(t)) && Collapse(t) == a + b
    ensures Collapse(s) == (out + a) + b
  {
    CollapseStep(s, out, t);
    Assoc(out, a, b);
  }

  lemma TailOfTail(b: string, t: string, s: string)
    requires UnmatchedTail(b, t) && |t| <= |s| && s[|s| - |t|..] == t
    ensures UnmatchedTail(b, s)
  {
    if b != [] { assert s[|s| - |t|..][|t| - |b|..] == s[|s| - |b|..]; }
  }

  // ----- What is kept: the result, read off the shape of the line

  lemma {:induction false} FirstQuoteAfter(h: string, t: string)
    requires NoQuotes(h) && t != [] && IsQuote(t[0])
    ensures FirstQuote(h + t) == Some(|h|)
  {
    if h == [] {
      assert h + t == t;
    } else {
      FirstQuoteAfter(h[1..], t);
      assert (h + t)[1..] == h[1..] + t;
    }
  }

  lemma {:induction false} FindAfter(w: string, q: char, t: string)
    requires q !in w
    ensures Find(w + [q] + t, q) == Some(|w|)
  {
    if w == [] {
      assert w + [q] + t == [q] + t;
    } else {
      FindAfter(w[1..], q, t);
      assert (w + [q] + t)[1..] == w[1..] + [q] + t;
    }
  }

  /** A line without quotes stays as it is. */
  lemma PlainStays(s: string)
    requires NoQuotes(s)
    ensures Collapse(s) == s
  {
  }

  /** A literal loses its inside and nothing else, and the rest of the line is treated afresh. */
  lemma LiteralLosesItsInside(h: string, q: char, w: string, t: string)
    requires NoQuotes(h) && IsQuote(q) && q !in w && !(q == '\'' && EndsInNumber(h))
    ensures Collapse(h + ([q] + (w + [q] + t))) == h + [q, q] + Collapse(t)
  {
    var tail := w + [q] + t;
    var s := h + ([q] + tail);
    FirstQuoteAfter(h, [q] + tail);
    FindAfter(w, q, t);
    assert s[..|h|] == h && s[|h| + 1..] == tail && tail[|w| + 1..] == t;
    assert Round(s) == (h + [q, q], Some(t));
  }

  /** From a quote without a partner on, the line stays as it is. */
  lemma UnmatchedStays(h: string, q: char, t: string)
    requires NoQuotes(h) && IsQuote(q) && q !in t && !(q == '\'' && EndsInNumber(h))
    ensures Collapse(h + ([q] + t)) == h + ([q] + t)
  {
    var s := h + ([q] + t);
    FirstQuoteAfter(h, [q] + t);
    assert s[..|h|] == h && s[|h| + 1..] == t;
  }

  /** Digit groups, each behind a separator. */
  function Ticked(groups: seq<string>): string {
    if groups == [] then [] else "'" + (groups[0] + Ticked(groups[1..]))
  }

  function Joined(groups: seq<string>): string {
    if groups == [] then [] else groups[0] + Joined(groups[1..])
  }

  predicate IsGroup(w: string) {
    w != [] && forall k :: 0 <= k < |w| ==> IsWord(w[k])
  }

  predicate AllGroups(groups: seq<string>) {
    forall i :: 0 <= i < |groups| ==> IsGroup(groups[i])
  }

  /** `r` starts neither with a digit nor with a separator and a digit. */
  predicate EndsNumber(r: string) {
    r == [] || (!IsWord(r[0]) && !(|r| >= 2 && r[0] == '\'' && IsWord(r[1])))
  }

  lemma {:induction false} GroupLength(w: string, r: string)
    requires forall k :: 0 <= k < |w| ==> IsWord(w[k])
    ensures LiteralLength(w + r) == |w| + LiteralLength(r)
  {
    if w == [] {
      assert w + r == r;
    } else {
      GroupLength(w[1..], r);
      assert (w + r)[1..] == w[1..] + r;
    }
  }

  lemma TickedFirst(groups: seq<string>, r: string)
    requires groups != []
    ensures Ticked(groups) + r == "'" + (groups[0] + (Ticked(groups[1..]) + r))
  {
  }

  /** A separator before a group belongs to the number together with its group. */
  lemma TickLength(w: string, r: string)
    requires IsGroup(w)
    ensures LiteralLength("'" + (w + r)) == 1 + |w| + LiteralLength(r)
  {
    var s := "'" + (w + r);
    assert s[2..] == w[1..] + r;
    GroupLength(w[1..], r);
  }

  lemma {:induction false} TickedLength(groups: seq<string>, r: string)
    requires AllGroups(groups) && EndsNumber(r)
    ensures LiteralLength(Ticked(groups) + r) == |Ticked(groups)|
    decreases |groups|
  {
    if groups == [] {
      assert Ticked(groups) + r == r;
    } else {
      TickedLength(groups[1..], r);
      TickLength(groups[0], Ticked(groups[1..]) + r);
      TickedFirst(groups, r);
    }
  }

  lemma {:induction false} GroupThenTicks(w: string, u: string)
    requires forall k :: 0 <= k < |w| ==> IsWord(w[k])
    ensures WithoutTicks(w + u) == w + WithoutTicks(u)
  {
    if w == [] {
      assert w + u == u;
    } else {
      GroupThenTicks(w[1..], u);
      assert (w + u)[1..] == w[1..] + u;
      assert w == [w[0]] + w[1..];
    }
  }

  lemma {:induction false} TickedJoined(groups: seq<string>)
    requires AllGroups(groups)
    ensures WithoutTicks(Ticked(groups)) == Joined(groups)
    decreases |groups|
  {
    if groups != [] {
      var u := groups[0] + Ticked(groups[1..]);
      TickedJoined(groups[1..]);
      GroupThenTicks(groups[0], Ticked(groups[1..]));
      assert ("'" + u)[1..] == u;
    }
  }

  lemma NumberRound(h: string, w: string, r: string)
    requires NoQuotes(h) && EndsInNumber(h) && w + r != [] && (w + r)[0] == '\'' && LiteralLength(w + r) == |w|
    ensures Round(h + (w + r)) == (h + WithoutTicks(w), Some(r))
  {
    var t := w + r;
    FirstQuoteAfter(h, t);
    assert (h + t)[..|h|] == h && (h + t)[|h|..] == t && t[..|w|] == w && t[|w|..] == r;
  }

  /** A number with any separated digit groups loses its separators and nothing else. */
  lemma NumberLosesSeparators(h: string, groups: seq<string>, r: string)
    requires NoQuotes(h) && EndsInNumber(h) && EndsNumber(r)
    requires groups != [] && AllGroups(groups)
    ensures Collapse(h + (Ticked(groups) + r)) == h + Joined(groups) + Collapse(r)
  {
    TickedLength(groups, r);
    TickedJoined(groups);
    NumberRound(h, Ticked(groups), r);
    CollapseStep(h + (Ticked(groups) + r), h + Joined(groups), r);
  }

  /** A separator that no digit follows is left to be treated on its own. */
  lemma LoneSeparator(h: string, t: string)
    requires NoQuotes(h) && EndsInNumber(h) && (t == [] || !IsWord(t[0]))
    ensures Collapse(h + ("'" + t)) == h + Collapse("'" + t)
  {
    var u := "'" + t;
    assert [] + u == u && h + [] == h;
    NumberRound(h, [], u);
    CollapseStep(h + u, h, u);
  }
}
