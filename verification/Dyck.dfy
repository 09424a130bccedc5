/**
  Plain bracket matching for `(`, `[` and `{`, with no knowledge of angle
  brackets, lines or stacks of mixed symbols.

  `Balanced` is the grammar of well-bracketed text and `Matched(t, p, q)` says
  that the bracket at `p` is closed by the one at `q`.  Two textbook scanners,
  one forward and one backward, are proved to decide exactly that relation.
*/
module Dyck {
  import opened Options

  predicate IsOpen(c: char) {
    c == '(' || c == '[' || c == '{'
  }

  predicate IsClose(c: char) {
    c == ')' || c == ']' || c == '}'
  }

  function OpenOf(c: char): char
    requires IsClose(c)
  {
    if c == ')' then '(' else if c == ']' then '[' else '{'
  }

  // ----- The declarative definition

  /** `t[k]` is a closing bracket of the same kind as the opening bracket `t[i]`. */
  predicate Pairs(t: string, i: int, k: int) {
    0 <= i < k < |t| && IsOpen(t[i]) && IsClose(t[k]) && OpenOf(t[k]) == t[i]
  }

  /** In `t[i..j]` every bracket is closed by one of its own kind, properly nested. */
  ghost predicate Balanced(t: string, i: nat, j: nat)
    requires i <= j <= |t|
    decreases j - i
  {
    || i == j
    || (!IsOpen(t[i]) && !IsClose(t[i]) && Balanced(t, i + 1, j))
    || exists k :: i < k < j && Pairs(t, i, k) && Balanced(t, i + 1, k) && Balanced(t, k + 1, j)
  }

  ghost predicate Matched(t: string, p: int, q: int) {
    Pairs(t, p, q) && Balanced(t, p + 1, q)
  }

  // ----- The two scanners

  /** The brackets still open, innermost on top. */
  datatype Stack = Empty | Push(below: Stack, top: char)

  function Step(a: Stack, c: char): Option<Stack> {
    if IsOpen(c) then Some(Push(a, c))
    else if !IsClose(c) then Some(a)
    else if a.Push? && a.top == OpenOf(c) then Some(a.below)
    else None
  }

  function StepBack(a: Stack, c: char): Option<Stack> {
    if IsClose(c) then Some(Push(a, OpenOf(c)))
    else if !IsOpen(c) then Some(a)
    else if a.Push? && a.top == c then Some(a.below)
    else None
  }

  /** The index of the bracket that empties the state, scanning forward from `i`. */
  function FindClose(t: string, i: nat, a: Stack): (r: Option<nat>)
    ensures r.Some? ==> i <= r.value < |t|
    decreases |t| - i
  {
    if i >= |t| then None
    else
      match Step(a, t[i])
      case None => None
      case Some(b) => if b == Empty then Some(i) else FindClose(t, i + 1, b)
  }

  /** The index of the bracket that empties the state, scanning backward from `i`. */
  function FindOpen(t: string, i: int, a: Stack): (r: Option<nat>)
    requires i < |t|
    ensures r.Some? ==> r.value <= i
    decreases i
  {
    if i < 0 then None
    else
      match StepBack(a, t[i])
      case None => None
      case Some(b) => if b == Empty then Some(i) else FindOpen(t, i - 1, b)
  }

  // ----- The forward scanner decides Matched

  lemma {:induction false} BalancedSkip(t: string, i: nat, j: nat, a: Stack)
    requires i <= j <= |t| && a != Empty && Balanced(t, i, j)
    ensures FindClose(t, i, a) == FindClose(t, j, a)
    decreases j - i
  {
    if i == j {
    } else if !IsOpen(t[i]) {
      BalancedSkip(t, i + 1, j, a);
    } else {
      var k :| i < k < j && Pairs(t, i, k) && Balanced(t, i + 1, k) && Balanced(t, k + 1, j);
      BalancedSkip(t, i + 1, k, Push(a, t[i]));
      BalancedSkip(t, k + 1, j, a);
    }
  }

  /** A successful scan first closes the innermost open bracket, around balanced text. */
  lemma {:induction false} FirstClose(t: string, i: nat, a: Stack, o: char, e: nat) returns (k: nat)
    requires FindClose(t, i, Push(a, o)) == Some(e)
    ensures i <= k <= e < |t| && IsClose(t[k]) && OpenOf(t[k]) == o && Balanced(t, i, k)
    ensures if a == Empty then k == e else FindClose(t, k + 1, a) == Some(e)
    decreases |t| - i
  {
    var c := t[i];
    if IsOpen(c) {
      var k1 := FirstClose(t, i + 1, Push(a, o), c, e);
      k := FirstClose(t, k1 + 1, a, o, e);
      assert Pairs(t, i, k1);
    } else if IsClose(c) {
      k := i;
    } else {
      k := FirstClose(t, i + 1, a, o, e);
    }
  }

  /** Scanning forward from an opening bracket succeeds exactly at its match. */
  lemma FindCloseIffMatched(t: string, p: nat, q: nat)
    requires p < |t| && IsOpen(t[p])
    ensures FindClose(t, p, Empty) == Some(q) <==> Matched(t, p, q)
  {
    if Matched(t, p, q) {
      BalancedSkip(t, p + 1, q, Push(Empty, t[p]));
    }
    if FindClose(t, p, Empty) == Some(q) {
      var k := FirstClose(t, p + 1, Empty, t[p], q);
    }
  }

  lemma FindCloseCorrect(t: string, p: nat)
    requires p < |t| && IsOpen(t[p])
    ensures match FindClose(t, p, Empty)
            case None => forall q :: !Matched(t, p, q)
            case Some(q) => Matched(t, p, q)
  {
    forall q: nat ensures FindClose(t, p, Empty) == Some(q) <==> Matched(t, p, q) { FindCloseIffMatched(t, p, q); }
  }

  // ----- The backward scanner decides Matched

  lemma {:induction false} BalancedAppend(t: string, i: nat, j: nat, k: nat)
    requires i <= j <= k <= |t| && Balanced(t, i, j) && Balanced(t, j, k)
    ensures Balanced(t, i, k)
    decreases j - i
  {
    if i == j {
    } else if !IsOpen(t[i]) {
      BalancedAppend(t, i + 1, j, k);
    } else {
      var m :| i < m < j && Pairs(t, i, m) && Balanced(t, i + 1, m) && Balanced(t, m + 1, j);
      BalancedAppend(t, m + 1, j, k);
    }
  }

  lemma {:induction false} BalancedSkipBack(t: string, i: nat, j: nat, a: Stack)
    requires i <= j <= |t| && a != Empty && Balanced(t, i, j)
    ensures FindOpen(t, j - 1, a) == FindOpen(t, i - 1, a)
    decreases j - i
  {
    if i == j {
    } else if !IsOpen(t[i]) {
      BalancedSkipBack(t, i + 1, j, a);
    } else {
      var k :| i < k < j && Pairs(t, i, k) && Balanced(t, i + 1, k) && Balanced(t, k + 1, j);
      BalancedSkipBack(t, k + 1, j, a);
      BalancedSkipBack(t, i + 1, k, Push(a, t[i]));
    }
  }

  lemma {:induction false} FirstOpen(t: string, i: nat, a: Stack, o: char, e: nat) returns (k: nat)
    requires i < |t| && FindOpen(t, i, Push(a, o)) == Some(e)
    ensures e <= k <= i && t[k] == o && IsOpen(o) && Balanced(t, k + 1, i + 1)
    ensures if a == Empty then k == e else FindOpen(t, k - 1, a) == Some(e)
    decreases i
  {
    var c := t[i];
    if IsClose(c) {
      var k1 := FirstOpen(t, i - 1, Push(a, o), OpenOf(c), e);
      k := FirstOpen(t, k1 - 1, a, o, e);
      assert Pairs(t, k1, i) && Balanced(t, i + 1, i + 1);
      BalancedAppend(t, k + 1, k1, i + 1);
    } else if IsOpen(c) {
      k := i;
    } else {
      k := FirstOpen(t, i - 1, a, o, e);
      assert Balanced(t, i + 1, i + 1);
      BalancedAppend(t, k + 1, i, i + 1);
    }
  }

  /** Scanning backward from a closing bracket succeeds exactly at its match. */
  lemma FindOpenIffMatched(t: string, p: nat, q: nat)
    requires q < |t| && IsClose(t[q])
    ensures FindOpen(t, q, Empty) == Some(p) <==> Matched(t, p, q)
  {
    if Matched(t, p, q) {
      BalancedSkipBack(t, p + 1, q, Push(Empty, t[p]));
    }
    if FindOpen(t, q, Empty) == Some(p) {
      var k := FirstOpen(t, q - 1, Empty, OpenOf(t[q]), p);
    }
  }

  lemma FindOpenCorrect(t: string, q: nat)
    requires q < |t| && IsClose(t[q])
    ensures match FindOpen(t, q, Empty)
            case None => forall p :: !Matched(t, p, q)
            case Some(p) => Matched(t, p, q)
  {
    forall p: nat ensures FindOpen(t, q, Empty) == Some(p) <==> Matched(t, p, q) { FindOpenIffMatched(t, p, q); }
  }

  /** A bracket has at most one partner, on either side. */
  lemma MatchUnique(t: string, p: nat, q: nat, p': nat, q': nat)
    requires Matched(t, p, q) && Matched(t, p', q')
    ensures p == p' <==> q == q'
  {
    FindCloseIffMatched(t, p, q);
    FindCloseIffMatched(t, p', q');
    FindOpenIffMatched(t, p, q);
    FindOpenIffMatched(t, p', q');
  }
}
