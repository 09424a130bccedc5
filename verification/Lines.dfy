/** A file as a sequence of lines, and as one text. */
module Lines {

  function Flat(lines: seq<string>): string {
    if lines == [] then [] else Flat(lines[..|lines| - 1]) + lines[|lines| - 1]
  }

  /** Where line `n` starts in the flat text. */
  function Offset(lines: seq<string>, n: nat): nat
    requires n <= |lines|
  {
    if n == 0 then 0 else Offset(lines, n - 1) + |lines[n - 1]|
  }

  predicate InLine(lines: seq<string>, n: int, pos: int) {
    0 <= n < |lines| && 0 <= pos < |lines[n]|
  }

  lemma {:induction false} OffsetMonotone(lines: seq<string>, m: nat, n: nat)
    requires m <= n <= |lines|
    ensures Offset(lines, m) <= Offset(lines, n)
    decreases n
  {
    if m < n { OffsetMonotone(lines, m, n - 1); }
  }

  lemma {:induction false} OffsetPrefix(lines: seq<string>, m: nat, n: nat)
    requires n <= m <= |lines|
    ensures Offset(lines[..m], n) == Offset(lines, n)
    decreases n
  {
    if n > 0 { OffsetPrefix(lines, m, n - 1); }
  }

  /** Line `n` is found in the flat text at its offset. */
  lemma {:induction false} FlatLine(lines: seq<string>, n: nat)
    requires n < |lines|
    ensures |Flat(lines)| == Offset(lines, |lines|)
    ensures Offset(lines, n) + |lines[n]| <= |Flat(lines)|
    ensures forall k :: 0 <= k < |lines[n]| ==> Flat(lines)[Offset(lines, n) + k] == lines[n][k]
    decreases |lines|
  {
    var last := |lines| - 1;
    OffsetPrefix(lines, last, last);
    if n < last {
      FlatLine(lines[..last], n);
      OffsetPrefix(lines, last, n);
    } else if last > 0 {
      FlatLine(lines[..last], 0);
    }
  }

  /** Different places in the file are different places in the flat text. */
  lemma PlaceUnique(lines: seq<string>, n: nat, pos: nat, n': nat, pos': nat)
    requires InLine(lines, n, pos) && InLine(lines, n', pos')
    requires Offset(lines, n) + pos == Offset(lines, n') + pos'
    ensures n == n' && pos == pos'
  {
    if n < n' {
      OffsetMonotone(lines, n + 1, n');
    } else if n' < n {
      OffsetMonotone(lines, n' + 1, n);
    }
  }
}
