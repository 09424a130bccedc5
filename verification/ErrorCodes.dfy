/**
  The assertion-code report of buildscripts/errorcodes.py: finding duplicate and
  zero codes, turning a text position into a line number, and choosing the next
  free code.  The assertions that the patterns find in the sources are an input.
*/
module ErrorCodes {
  import opened Options
  import opened Counting

  datatype Loc = Loc(sourceFile: string, lineNum: nat, lines: string, code: string)

  // ----- Duplicates

  /** The locations with a given code, in the order found. */
  function OfCode(locs: seq<Loc>, code: string): (r: seq<Loc>)
    ensures forall i :: 0 <= i < |r| ==> r[i].code == code
  {
    if locs == [] then []
    else
      var last := locs[|locs| - 1];
      OfCode(locs[..|locs| - 1], code) + if last.code == code then [last] else []
  }

  lemma {:induction false} TimesOfCode(locs: seq<Loc>, x: Loc)
    ensures Times(OfCode(locs, x.code), x) == Times(locs, x)
  {
    if locs != [] {
      TimesOfCode(locs[..|locs| - 1], x);
      var front := OfCode(locs[..|locs| - 1], x.code);
      if locs[|locs| - 1].code == x.code {
        assert (front + [locs[|locs| - 1]])[..|front|] == front;
      } else {
        assert front + [] == front;
      }
    }
  }

  datatype State = State(seen: map<string, Loc>, dups: map<string, seq<Loc>>, errors: seq<Loc>)

  /** The callback on one more location. */
  function CheckDups(s: State, loc: Loc): State {
    var code := loc.code;
    if code !in s.seen then s.(seen := s.seen[code := loc])
    else if code !in s.dups then
      s.(dups := s.dups[code := [s.seen[code], loc]], errors := s.errors + [s.seen[code]] + [loc])
    else s.(dups := s.dups[code := s.dups[code] + [loc]], errors := s.errors + [loc])
  }

  function Checked(locs: seq<Loc>): State {
    if locs == [] then State(map[], map[], []) else CheckDups(Checked(locs[..|locs| - 1]), locs[|locs| - 1])
  }

  /** `seen` holds the first use of a code, `dups` all uses of a repeated one. */
  ghost predicate KnowsCode(uses: seq<Loc>, s: State, c: string) {
    && (c in s.seen <==> uses != [])
    && (c in s.seen ==> s.seen[c] == uses[0])
    && (c in s.dups <==> |uses| >= 2)
    && (c in s.dups ==> s.dups[c] == uses)
  }

  lemma CodeStep(uses: seq<Loc>, s: State, loc: Loc, c: string)
    requires KnowsCode(uses, s, c)
    ensures KnowsCode(if loc.code == c then uses + [loc] else uses, CheckDups(s, loc), c)
  {
    if loc.code == c && |uses| == 1 { assert uses + [loc] == [uses[0], loc]; }
  }

  lemma {:induction false} KnowsCodes(locs: seq<Loc>, c: string)
    ensures KnowsCode(OfCode(locs, c), Checked(locs), c)
  {
    if locs != [] {
      var front, loc := locs[..|locs| - 1], locs[|locs| - 1];
      KnowsCodes(front, c);
      CodeStep(OfCode(front, c), Checked(front), loc, c);
      assert OfCode(front, c) + [] == OfCode(front, c);
    }
  }

  lemma ErrorsStep(uses: seq<Loc>, s: State, loc: Loc, x: Loc)
    requires KnowsCode(uses, s, loc.code)
    ensures Times(CheckDups(s, loc).errors, x) == Times(s.errors, x) +
            (if |uses| == 1 && uses[0] == x then 1 else 0) + (if |uses| >= 1 && loc == x then 1 else 0)
  {
    if |uses| == 1 {
      TimesLast(s.errors, uses[0], x);
      TimesLast(s.errors + [uses[0]], loc, x);
    } else {
      TimesLast(s.errors, loc, x);
    }
  }

  lemma TimesOne(uses: seq<Loc>, x: Loc)
    requires |uses| == 1
    ensures Times(uses, x) == if uses[0] == x then 1 else 0
  {
    assert uses[..0] == [];
  }

  /** The errors are the uses of repeated codes, each as often as it was found. */
  lemma {:induction false} ErrorsAre(locs: seq<Loc>, x: Loc)
    ensures Times(Checked(locs).errors, x) == if |OfCode(locs, x.code)| >= 2 then Times(locs, x) else 0
  {
    if locs != [] {
      var front, loc := locs[..|locs| - 1], locs[|locs| - 1];
      ErrorsAre(front, x);
      KnowsCodes(front, loc.code);
      ErrorsStep(OfCode(front, loc.code), Checked(front), loc, x);
      var uses := OfCode(front, x.code);
      TimesOfCode(front, x);
      if |uses| == 1 { TimesOne(uses, x); }
      assert uses + [] == uses;
    }
  }

  ghost predicate CodesDiffer(locs: seq<Loc>) {
    forall i, j :: 0 <= i < j < |locs| ==> locs[i].code != locs[j].code
  }

  class Report {
    var codes: seq<Loc>

    constructor ()
      ensures codes == []
    {
      codes := [];
    }

    /** Adds what was found to the codes and returns the errors among it. */
    method ReadErrorCodes(found: seq<Loc>) returns (errors: seq<Loc>)
      modifies this
      ensures codes == old(codes) + found
      ensures forall x :: Times(errors, x) ==
                (if |OfCode(found, x.code)| >= 2 then Times(found, x) else 0) +
                (if OfCode(found, "0") != [] && x == OfCode(found, "0")[0] then 1 else 0)
      ensures errors == [] <==> CodesDiffer(found) && forall i :: 0 <= i < |found| ==> found[i].code != "0"
    {
      var s := State(map[], map[], []);
      for i := 0 to |found|
        invariant s == Checked(found[..i]) && codes == old(codes) + found[..i]
      {
        assert found[..i + 1][..i] == found[..i];
        codes := codes + [found[i]];
        s := CheckDups(s, found[i]);
      }
      assert found[..|found|] == found;
      errors := WithZero(s);
      ErrorsMean(found);
    }

    /** The next free code; the sources, where `found` is, are read only while no code is known. */
    method GetNextCode(found: seq<Loc>) returns (next: Option<nat>)
      modifies this
      ensures codes == if old(codes) == [] then found else old(codes)
      ensures next.Some? <==> |codes| >= 2
      ensures next.Some? ==> IsNext(codes, next.value)
    {
      if |codes| == 0 {
        var errors := ReadErrorCodes(found);
      }
      next := HighestPlusOne(codes);
    }
  }

  /** The errors after the check for a zero code. */
  function WithZero(s: State): seq<Loc> {
    if "0" in s.seen then s.errors + [s.seen["0"]] else s.errors
  }

  lemma ErrorsMean(locs: seq<Loc>)
    ensures forall x :: Times(WithZero(Checked(locs)), x) ==
              (if |OfCode(locs, x.code)| >= 2 then Times(locs, x) else 0) +
              (if OfCode(locs, "0") != [] && x == OfCode(locs, "0")[0] then 1 else 0)
    ensures WithZero(Checked(locs)) == [] <==>
            CodesDiffer(locs) && forall i :: 0 <= i < |locs| ==> locs[i].code != "0"
  {
    var s := Checked(locs);
    KnowsCodes(locs, "0");
    NoErrorsIff(locs);
    ZeroIff(locs);
    forall x ensures Times(WithZero(s), x) ==
              (if |OfCode(locs, x.code)| >= 2 then Times(locs, x) else 0) +
              (if OfCode(locs, "0") != [] && x == OfCode(locs, "0")[0] then 1 else 0)
    {
      ErrorsAre(locs, x);
      if "0" in s.seen { TimesLast(s.errors, s.seen["0"], x); }
    }
  }

  lemma {:induction false} OfCodeHas(locs: seq<Loc>, i: nat)
    requires i < |locs|
    ensures locs[i] in OfCode(locs, locs[i].code)
    decreases |locs|
  {
    if i < |locs| - 1 { OfCodeHas(locs[..|locs| - 1], i); }
  }

  lemma {:induction false} OfCodeFrom(locs: seq<Loc>, code: string)
    ensures OfCode(locs, code) != [] ==> exists i :: 0 <= i < |locs| && locs[i].code == code
    ensures |OfCode(locs, code)| >= 2 ==> !CodesDiffer(locs)
  {
    if locs != [] {
      var last := |locs| - 1;
      OfCodeFrom(locs[..last], code);
      if OfCode(locs[..last], code) != [] {
        var i :| 0 <= i < last && locs[..last][i].code == code;
        assert locs[i].code == code;
      }
      if !CodesDiffer(locs[..last]) {
        var i, j :| 0 <= i < j < last && locs[..last][i].code == locs[..last][j].code;
        assert locs[i].code == locs[j].code;
      }
    }
  }

  lemma {:induction false} OfCodeTwice(locs: seq<Loc>, i: nat, j: nat)
    requires i < j < |locs| && locs[i].code == locs[j].code
    ensures |OfCode(locs, locs[i].code)| >= 2
    decreases |locs|
  {
    if j < |locs| - 1 {
      OfCodeTwice(locs[..|locs| - 1], i, j);
    } else {
      OfCodeHas(locs[..j], i);
      assert locs[..j][i] == locs[i];
    }
  }

  lemma ZeroIff(locs: seq<Loc>)
    ensures OfCode(locs, "0") == [] <==> forall i :: 0 <= i < |locs| ==> locs[i].code != "0"
  {
    OfCodeFrom(locs, "0");
    forall i | 0 <= i < |locs| && locs[i].code == "0" ensures OfCode(locs, "0") != [] { OfCodeHas(locs, i); }
  }

  /** Before the zero check there is an error exactly when two codes agree. */
  lemma NoErrorsIff(locs: seq<Loc>)
    ensures Checked(locs).errors == [] <==> CodesDiffer(locs)
  {
    var s := Checked(locs);
    if s.errors != [] {
      TimesIn(s.errors, s.errors[0]);
      ErrorsAre(locs, s.errors[0]);
      OfCodeFrom(locs, s.errors[0].code);
    }
    if !CodesDiffer(locs) {
      var i, j :| 0 <= i < j < |locs| && locs[i].code == locs[j].code;
      OfCodeTwice(locs, i, j);
      TimesIn(locs, locs[i]);
      ErrorsAre(locs, locs[i]);
    }
  }

  // ----- Line numbers

  /** Where each line starts, and the length of the text. */
  function Offsets(lines: seq<string>): (r: seq<nat>)
    ensures |r| == |lines| + 1 && r[0] == 0
  {
    if lines == [] then [0]
    else
      var front := Offsets(lines[..|lines| - 1]);
      front + [front[|front| - 1] + |lines[|lines| - 1]|]
  }

  method LineOffsets(lines: seq<string>) returns (r: seq<nat>)
    ensures r == Offsets(lines)
  {
    r := [0];
    for i := 0 to |lines|
      invariant r == Offsets(lines[..i])
    {
      assert lines[..i + 1][..i] == lines[..i];
      r := r + [r[|r| - 1] + |lines[i]|];
    }
    assert lines[..|lines|] == lines;
  }

  ghost predicate Ascending(a: seq<nat>) {
    forall i, j :: 0 <= i <= j < |a| ==> a[i] <= a[j]
  }

  lemma {:induction false} OffsetsAscending(lines: seq<string>)
    ensures Ascending(Offsets(lines))
  {
    if lines != [] { OffsetsAscending(lines[..|lines| - 1]); }
  }

  /** `bisect.bisect`: how many entries are at most `x`. */
  method Bisect(a: seq<nat>, x: nat) returns (lo: nat)
    requires Ascending(a)
    ensures lo <= |a|
    ensures (forall i :: 0 <= i < lo ==> a[i] <= x) && (forall i :: lo <= i < |a| ==> x < a[i])
  {
    lo := 0;
    var hi := |a|;
    while lo < hi
      invariant 0 <= lo <= hi <= |a|
      invariant forall i :: 0 <= i < lo ==> a[i] <= x
      invariant forall i :: hi <= i < |a| ==> x < a[i]
    {
      var mid := (lo + hi) / 2;
      if x < a[mid] {
        hi := mid;
      } else {
        lo := mid + 1;
      }
    }
  }

  /** The line, counted from 1, that holds the position; one past the last line at or beyond the end of the text. */
  method GetLineForPosition(lines: seq<string>, position: nat) returns (line: nat)
    ensures 1 <= line <= |lines| + 1
    ensures Offsets(lines)[line - 1] <= position
    ensures line <= |lines| ==> position < Offsets(lines)[line] == Offsets(lines)[line - 1] + |lines[line - 1]|
    ensures line == |lines| + 1 <==> position >= Offsets(lines)[|lines|]
  {
    var offsets := LineOffsets(lines);
    OffsetsAscending(lines);
    line := Bisect(offsets, position);
    assert offsets[0] <= position;
    if line <= |lines| { OffsetsStep(lines, line - 1); }
  }

  lemma {:induction false} OffsetsStep(lines: seq<string>, i: nat)
    requires i < |lines|
    ensures Offsets(lines)[i + 1] == Offsets(lines)[i] + |lines[i]|
    decreases |lines|
  {
    if i < |lines| - 1 { OffsetsStep(lines[..|lines| - 1], i); }
  }

  // ----- The next code

  function Decimal(s: string): nat {
    if s == [] then 0
    else 10 * Decimal(s[..|s| - 1]) + if '0' <= s[|s| - 1] <= '9' then s[|s| - 1] as nat - '0' as nat else 0
  }

  function Digit(d: nat): char
    requires d < 10
  {
    ('0' as int + d) as char
  }

  /** A number in decimal, without leading zeros. */
  function Digits(n: nat): string {
    (if n < 10 then [] else Digits(n / 10)) + [Digit(n % 10)]
  }

  /** Reading a printed number gives the number. */
  lemma {:induction false} DecimalOfDigits(n: nat)
    ensures Decimal(Digits(n)) == n
  {
    var front := if n < 10 then [] else Digits(n / 10);
    assert Digits(n)[..|front|] == front && Digits(n)[|front|] == Digit(n % 10);
    if n >= 10 { DecimalOfDigits(n / 10); }
  }

  /** And leading zeros do not count. */
  lemma {:induction false} LeadingZero(s: string)
    ensures Decimal("0" + s) == Decimal(s)
  {
    var t := "0" + s;
    if s == [] {
      assert t == "0" && t[..0] == [];
    } else {
      LeadingZero(s[..|s| - 1]);
      assert t[..|t| - 1] == "0" + s[..|s| - 1];
    }
  }

  /** The fold: numbers are compared only from the second code on, so with fewer than two it ends in an error. */
  method HighestPlusOne(codes: seq<Loc>) returns (next: Option<nat>)
    ensures next.Some? <==> |codes| >= 2
    ensures next.Some? ==> IsNext(codes, next.value)
  {
    if |codes| < 2 {
      return None;
    }
    var highest := Decimal(codes[0].code);
    for i := 1 to |codes|
      invariant forall k :: 0 <= k < i ==> Decimal(codes[k].code) <= highest
      invariant exists k :: 0 <= k < i && Decimal(codes[k].code) == highest
    {
      if Decimal(codes[i].code) > highest {
        highest := Decimal(codes[i].code);
      }
    }
    return Some(highest + 1);
  }

  /** `next` exceeds every code, and the highest one by one. */
  ghost predicate IsNext(codes: seq<Loc>, next: nat) {
    && (forall i :: 0 <= i < |codes| ==> Decimal(codes[i].code) < next)
    && (exists i :: 0 <= i < |codes| && Decimal(codes[i].code) + 1 == next)
  }
}
