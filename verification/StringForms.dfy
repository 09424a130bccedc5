/**
  What `_CollapseStrings` does, read off the shape of the line: which escapes are
  removed, what becomes of whole literals, which lines are left alone as include
  directives and which text ends in a number.
*/
module StringForms {
  import opened Options
  import opened Chars
  import opened StringCollapse

  // ----- Escapes

  predicate NoBackslash(s: string) {
    forall k :: 0 <= k < |s| ==> s[k] != '\\'
  }

  predicate IsSimpleEscape(c: char) {
    || c == 'a' || c == 'b' || c == 'f' || c == 'n' || c == 'r' || c == 't' || c == 'v'
    || c == '?' || c == '"' || c == '\\' || c == '\''
  }

  lemma {:induction false} PlainFirst(a: string, s: string)
    requires NoBackslash(a)
    ensures WithoutEscapes(a + s) == a + WithoutEscapes(s)
  {
    if a == [] {
      assert a + s == s && a + WithoutEscapes(s) == WithoutEscapes(s);
    } else {
      PlainFirst(a[1..], s);
      assert (a + s)[1..] == a[1..] + s;
      assert a + WithoutEscapes(s) == [a[0]] + (a[1..] + WithoutEscapes(s));
    }
  }

  lemma EscapeFirst(s: string, n: nat)
    requires EscapeLength(s) == n > 0
    ensures WithoutEscapes(s) == WithoutEscapes(s[n..])
  {
  }

  /** An escape of one character is removed, the escaped quotes and backslash among them. */
  lemma SimpleEscapeRemoved(a: string, c: char, t: string)
    requires NoBackslash(a) && IsSimpleEscape(c)
    ensures WithoutEscapes(a + (['\\', c] + t)) == a + WithoutEscapes(t)
  {
    var s := ['\\', c] + t;
    PlainFirst(a, s);
    assert c in "abfnrtv?\"\\'" by { SimpleEscapes(c); }
    EscapeFirst(s, 2);
    assert s[2..] == t;
  }

  lemma SimpleEscapes(c: char)
    ensures c in "abfnrtv?\"\\'" <==> IsSimpleEscape(c)
  {
    var all := "abfnrtv?\"\\'";
    assert all == ['a', 'b', 'f', 'n', 'r', 't', 'v', '?', '"', '\\', '\''];
  }

  lemma {:induction false} RunLengthIs(r: string, t: string, p: char -> bool)
    requires (forall k :: 0 <= k < |r| ==> p(r[k])) && (t == [] || !p(t[0]))
    ensures RunLength(r + t, p) == |r|
  {
    if r == [] {
      assert r + t == t;
    } else {
      RunLengthIs(r[1..], t, p);
      assert (r + t)[1..] == r[1..] + t;
    }
  }

  predicate AllDigits(r: string) {
    forall k :: 0 <= k < |r| ==> IsDigit(r[k])
  }

  /** A backslash goes with all the digits behind it. */
  lemma DigitEscapeRemoved(a: string, r: string, t: string)
    requires NoBackslash(a) && r != [] && AllDigits(r) && (t == [] || !IsDigit(t[0]))
    ensures WithoutEscapes(a + ("\\" + (r + t))) == a + WithoutEscapes(t)
  {
    var s := "\\" + (r + t);
    PlainFirst(a, s);
    SimpleEscapes(r[0]);
    RunLengthIs(r, t, IsDigit);
    assert s[1..] == r + t && s[1] == r[0];
    EscapeFirst(s, 1 + |r|);
    assert s[1 + |r|..] == t;
  }

  /** A backslash and an `x` go with all the hexadecimal digits behind them. */
  lemma HexEscapeRemoved(a: string, r: string, t: string)
    requires NoBackslash(a) && r != [] && AllHex(r) && (t == [] || !IsHex(t[0]))
    ensures WithoutEscapes(a + ("\\x" + (r + t))) == a + WithoutEscapes(t)
  {
    var s := "\\x" + (r + t);
    PlainFirst(a, s);
    SimpleEscapes('x');
    RunLengthIs(r, t, IsHex);
    assert s[1] == 'x' && s[2] == r[0] && s[2..] == r + t;
    EscapeFirst(s, 2 + |r|);
    assert s[2 + |r|..] == t;
  }

  predicate StartsEscape(t: string) {
    t != [] && (IsSimpleEscape(t[0]) || IsDigit(t[0]) || (|t| > 1 && t[0] == 'x' && IsHex(t[1])))
  }

  /** Any other backslash stays. */
  lemma BackslashStays(a: string, t: string)
    requires NoBackslash(a) && !StartsEscape(t)
    ensures WithoutEscapes(a + ("\\" + t)) == a + ("\\" + WithoutEscapes(t))
  {
    var s := "\\" + t;
    PlainFirst(a, s);
    if t != [] { SimpleEscapes(t[0]); }
    assert s[1..] == t;
  }

  // ----- Whole literals

  /** The inside of a literal in quotes `q`: every `q` and every backslash is escaped. */
  predicate IsInside(w: string, q: char)
    decreases |w|
  {
    if w == [] then true
    else if w[0] == '\\' then |w| >= 2 && IsInside(w[2..], q)
    else w[0] != q && IsInside(w[1..], q)
  }

  lemma {:induction false} InsideSkip(w: string, q: char, k: nat)
    requires IsInside(w, q) && k <= |w| && NoBackslash(w[..k])
    ensures IsInside(w[k..], q)
  {
    if k == 0 {
      assert w[0..] == w;
    } else {
      assert w[..k][0] == w[0] && w[1..][..k - 1] == w[..k][1..];
      InsideSkip(w[1..], q, k - 1);
      assert w[1..][k - 1..] == w[k..];
    }
  }

  lemma {:induction false} RunStops(s: string, p: char -> bool, m: nat)
    requires m < |s| && !p(s[m])
    ensures RunLength(s, p) <= m
    ensures forall k :: 0 <= k < RunLength(s, p) ==> p(s[k])
  {
    if p(s[0]) {
      RunStops(s[1..], p, m - 1);
      assert forall k :: 1 <= k < RunLength(s, p) ==> s[k] == s[1..][k - 1];
    }
  }

  /** An escape inside a literal ends inside it, with no backslash among its later characters. */
  lemma EscapeWithin(w: string, s: string)
    requires |w| >= 2 && w < s && IsQuote(s[|w|]) && EscapeLength(s) > 0
    ensures 2 <= EscapeLength(s) <= |w| && NoBackslash(w[2..EscapeLength(s)])
  {
    assert forall k :: 0 <= k < |w| ==> s[k] == w[k];
    SimpleEscapes(s[1]);
    if !IsSimpleEscape(s[1]) {
      if IsDigit(s[1]) {
        RunStops(s[1..], IsDigit, |w| - 1);
        assert forall k :: 2 <= k < EscapeLength(s) ==> IsDigit(s[1..][k - 1]) && s[k] == s[1..][k - 1];
      } else {
        RunStops(s[2..], IsHex, |w| - 2);
        assert forall k :: 2 <= k < EscapeLength(s) ==> IsHex(s[2..][k - 2]) && s[k] == s[2..][k - 2];
      }
    }
  }

  lemma FirstStays(s: string)
    requires s != [] && EscapeLength(s) == 0
    ensures WithoutEscapes(s) == [s[0]] + WithoutEscapes(s[1..])
  {
  }

  lemma KeptChar(s: string)
    requires |s| >= 2 && s[0] == '\\' && EscapeLength(s) == 0
    ensures !IsSimpleEscape(s[1])
  {
    SimpleEscapes(s[1]);
  }

  /** A backslash that starts no escape stays, and so does the character behind it. */
  lemma KeptPair(s: string, t: string)
    requires |s| >= 2 && s[0] == '\\' && EscapeLength(s) == 0 && t == s[2..]
    ensures WithoutEscapes(s) == [s[0], s[1]] + WithoutEscapes(t)
  {
    KeptChar(s);
    FirstStays(s);
    var u := s[1..];
    assert u[0] == s[1] && u[1..] == t;
    FirstStays(u);
  }

  /** Without escapes, `w` in front of the quote `q` becomes `v`, which holds no `q`. */
  ghost predicate Closes(w: string, q: char, t: string, v: string) {
    q !in v && WithoutEscapes(w + ([q] + t)) == v + ([q] + WithoutEscapes(t))
  }

  lemma ClosesAtOnce(q: char, t: string)
    requires IsQuote(q)
    ensures Closes([], q, t, [])
  {
    PlainFirst([q], t);
    assert [] + ([q] + t) == [q] + t && [] + ([q] + WithoutEscapes(t)) == [q] + WithoutEscapes(t);
  }

  lemma ClosesAfterPlain(w: string, q: char, t: string, v: string)
    requires w != [] && w[0] != '\\' && w[0] != q && Closes(w[1..], q, t, v)
    ensures Closes(w, q, t, [w[0]] + v)
  {
    var s := w + ([q] + t);
    assert s[1..] == w[1..] + ([q] + t);
    FirstStays(s);
    assert [w[0]] + (v + ([q] + WithoutEscapes(t))) == [w[0]] + v + ([q] + WithoutEscapes(t));
  }

  lemma ClosesAfterEscape(w: string, q: char, t: string, v: string, n: nat)
    requires n == EscapeLength(w + ([q] + t)) && 0 < n <= |w| && Closes(w[n..], q, t, v)
    ensures Closes(w, q, t, v)
  {
    var s := w + ([q] + t);
    assert s[n..] == w[n..] + ([q] + t);
    EscapeFirst(s, n);
  }

  lemma ClosesAfterPair(w: string, q: char, t: string, v: string)
    requires IsQuote(q) && |w| >= 2 && w[0] == '\\' && EscapeLength(w + ([q] + t)) == 0 && Closes(w[2..], q, t, v)
    ensures Closes(w, q, t, [w[0], w[1]] + v)
  {
    var s := w + ([q] + t);
    assert s[2..] == w[2..] + ([q] + t);
    KeptChar(s);
    KeptPair(s, s[2..]);
    assert [w[0], w[1]] + (v + ([q] + WithoutEscapes(t))) == [w[0], w[1]] + v + ([q] + WithoutEscapes(t));
  }

  /** Removing the escapes from a literal leaves no quote of its own inside it. */
  lemma {:induction false} InsideWithoutEscapes(w: string, q: char, t: string) returns (v: string)
    requires IsQuote(q) && IsInside(w, q)
    ensures Closes(w, q, t, v)
    decreases |w|
  {
    var s := w + ([q] + t);
    if w == [] {
      v := [];
      ClosesAtOnce(q, t);
    } else if w[0] != '\\' {
      v := InsideWithoutEscapes(w[1..], q, t);
      ClosesAfterPlain(w, q, t, v);
      v := [w[0]] + v;
    } else if EscapeLength(s) > 0 {
      var n := EscapeLength(s);
      EscapeWithin(w, s);
      InsideAfter(w, q, n);
      v := InsideWithoutEscapes(w[n..], q, t);
      ClosesAfterEscape(w, q, t, v, n);
    } else {
      v := InsideWithoutEscapes(w[2..], q, t);
      ClosesAfterPair(w, q, t, v);
      v := [w[0], w[1]] + v;
    }
  }

  lemma InsideAfter(w: string, q: char, n: nat)
    requires w != [] && w[0] == '\\' && IsInside(w, q) && 2 <= n <= |w| && NoBackslash(w[2..n])
    ensures IsInside(w[n..], q)
  {
    assert w[2..][..n - 2] == w[2..n] && w[2..][n - 2..] == w[n..];
    InsideSkip(w[2..], q, n - 2);
  }

  /** A literal, whatever it escapes, becomes empty, and the rest of the line is treated afresh. */
  lemma LiteralEmptied(h: string, q: char, w: string, t: string)
    requires NoQuotes(h) && NoBackslash(h) && IsQuote(q) && IsInside(w, q) && !(q == '\'' && EndsInNumber(h))
    ensures Collapse(WithoutEscapes(h + ([q] + (w + ([q] + t))))) == h + [q, q] + Collapse(WithoutEscapes(t))
  {
    var tail := w + ([q] + t);
    PlainFirst(h, [q] + tail);
    PlainFirst([q], tail);
    var v := InsideWithoutEscapes(w, q, t);
    assert v + ([q] + WithoutEscapes(t)) == v + [q] + WithoutEscapes(t);
    LiteralLosesItsInside(h, q, v, WithoutEscapes(t));
  }

  // ----- Whole lines

  /** Text without quotes, and a literal behind it. */
  datatype Part = Part(plain: string, quote: char, inside: string)

  predicate IsPart(p: Part) {
    && NoQuotes(p.plain) && NoBackslash(p.plain) && IsQuote(p.quote) && IsInside(p.inside, p.quote)
    && !(p.quote == '\'' && EndsInNumber(p.plain))
  }

  function Text(parts: seq<Part>, rest: string): string {
    if parts == [] then rest
    else
      var p := parts[0];
      p.plain + ([p.quote] + (p.inside + ([p.quote] + Text(parts[1..], rest))))
  }

  /** The same text with nothing inside its literals. */
  function Emptied(parts: seq<Part>, rest: string): string {
    if parts == [] then rest
    else parts[0].plain + [parts[0].quote, parts[0].quote] + Emptied(parts[1..], rest)
  }

  /** A line of plain text and literals keeps its text and loses exactly the insides of its literals. */
  lemma {:induction false} LiteralsEmptied(parts: seq<Part>, rest: string)
    requires (forall i :: 0 <= i < |parts| ==> IsPart(parts[i])) && NoQuotes(rest) && NoBackslash(rest)
    ensures Collapse(WithoutEscapes(Text(parts, rest))) == Emptied(parts, rest)
    ensures !IsInclude(Text(parts, rest)) ==> CollapseLine(Text(parts, rest)) == Emptied(parts, rest)
    decreases |parts|
  {
    if parts == [] {
      PlainFirst(rest, []);
      assert rest + [] == rest;
      PlainStays(rest);
    } else {
      var p := parts[0];
      LiteralsEmptied(parts[1..], rest);
      LiteralEmptied(p.plain, p.quote, p.inside, Text(parts[1..], rest));
    }
  }

  // ----- Include directives

  /** Which lines are include directives, and so stay as they are. */
  lemma IncludeForm(a: string, b: string, c: string, u: string)
    requires AllSpace(a) && AllSpace(b) && AllSpace(c) && (u == [] || !IsSpace(u[0]))
    ensures var line := a + ("#" + (b + ("include" + (c + u))));
            && (IsInclude(line) <==> u != [] && u[0] in ['<', '"'] && ('>' in u[1..] || '"' in u[1..]))
            && (IsInclude(line) ==> CollapseLine(line) == line)
  {
    var t := "include" + (c + u);
    var s := "#" + (b + t);
    assert t[0] == 'i';
    TrimLeftOf(a, s);
    assert s[1..] == b + t;
    TrimLeftOf(b, t);
    assert t[..7] == "include" && t[7..] == c + u;
    TrimLeftOf(c, u);
  }

  /** No other line is one. */
  lemma NotInclude(a: string, b: string, s: string)
    requires AllSpace(a) && AllSpace(b) && (s == [] || !IsSpace(s[0]))
    ensures s == [] || s[0] != '#' ==> !IsInclude(a + s)
    ensures !(|s| >= 7 && s[..7] == "include") ==> !IsInclude(a + ("#" + (b + s)))
  {
    TrimLeftOf(a, s);
    TrimLeftOf(a, "#" + (b + s));
    assert ("#" + (b + s))[1..] == b + s;
    TrimLeftOf(b, s);
  }

  // ----- Numbers

  /** A digit and hexadecimal digits, or `0x` or `0X` and hexadecimal digits. */
  predicate IsNumber(x: string) {
    x != [] && IsDigit(x[0]) &&
    (AllHex(x[1..]) || (|x| > 1 && x[0] == '0' && (x[1] == 'x' || x[1] == 'X') && AllHex(x[2..])))
  }

  lemma BaseLetters(c: char)
    ensures c in "bBxX" <==> c == 'b' || c == 'B' || c == 'x' || c == 'X'
  {
    assert "bBxX" == ['b', 'B', 'x', 'X'];
  }

  lemma NumberStarts(x: string)
    ensures IsNumberStart(x) <==> IsNumber(x)
  {
    if |x| > 1 {
      BaseLetters(x[1]);
      HexFirst(x[1..]);
      assert x[1..][1..] == x[2..] && x[1..][0] == x[1];
    }
  }

  lemma HexFirst(r: string)
    requires r != []
    ensures AllHex(r) <==> IsHex(r[0]) && AllHex(r[1..])
  {
    assert forall k :: 1 <= k < |r| ==> r[k] == r[1..][k - 1];
  }

  lemma NumberIsWord(x: string, k: nat)
    requires IsNumber(x) && k < |x|
    ensures IsWord(x[k])
  {
    if k > 1 { assert x[k] == x[1..][k - 1] == x[2..][k - 2]; }
    if k == 1 { assert x[k] == x[1..][0]; }
  }

  /** The last word of `g + x` starts behind `g`. */
  lemma LastWordStarts(g: string, x: string, k: nat)
    requires (g == [] || !IsWord(g[|g| - 1])) && forall j :: 0 <= j < |x| ==> IsWord(x[j])
    requires k < |g + x| && (k == 0 || !IsWord((g + x)[k - 1])) && forall j :: k <= j < |g + x| ==> IsWord((g + x)[j])
    ensures k == |g|
  {
    var h := g + x;
    assert |g| > 0 ==> h[|g| - 1] == g[|g| - 1];
    assert forall j :: |g| <= j < |h| ==> h[j] == x[j - |g|];
  }

  /** `h` has a number from the word boundary `k` to its end. */
  predicate NumberAt(h: string, k: nat) {
    k < |h| && (k == 0 || !IsWord(h[k - 1])) && IsNumberStart(h[k..])
  }

  lemma NumberAtLastWord(g: string, x: string, k: nat)
    requires (g == [] || !IsWord(g[|g| - 1])) && (forall j :: 0 <= j < |x| ==> IsWord(x[j])) && NumberAt(g + x, k)
    ensures k == |g|
  {
    var h := g + x;
    NumberStarts(h[k..]);
    forall j | k <= j < |h| ensures IsWord(h[j]) { NumberIsWord(h[k..], j - k); }
    LastWordStarts(g, x, k);
  }

  lemma NumberHere(g: string, x: string)
    requires g == [] || !IsWord(g[|g| - 1])
    ensures NumberAt(g + x, |g|) <==> IsNumber(x)
  {
    assert (g + x)[|g|..] == x;
    NumberStarts(x);
  }

  /** Text ends in a number exactly when its last word is one. */
  lemma NumberForm(g: string, x: string)
    requires (g == [] || !IsWord(g[|g| - 1])) && forall j :: 0 <= j < |x| ==> IsWord(x[j])
    ensures EndsInNumber(g + x) <==> IsNumber(x)
  {
    var h := g + x;
    NumberHere(g, x);
    assert EndsInNumber(h) <==> exists k: nat :: NumberAt(h, k);
    forall k: nat | NumberAt(h, k) ensures k == |g| { NumberAtLastWord(g, x, k); }
  }
}
