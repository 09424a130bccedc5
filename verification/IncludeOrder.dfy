/** The include-order automaton of cpplint's `_IncludeState`. */
module IncludeOrder {

  datatype Header = CSys | CppSys | LikelyMy | PossibleMy | OtherHeader

  const INITIAL_SECTION := 0
  const MY_H_SECTION := 1
  const C_SECTION := 2
  const CPP_SECTION := 3
  const OTHER_H_SECTION := 4

  predicate IsMy(h: Header) {
    h.LikelyMy? || h.PossibleMy?
  }

  predicate OutOfOrder(section: nat, h: Header) {
    (h.CSys? && section > C_SECTION) || (h.CppSys? && section > CPP_SECTION)
  }

  function NextSection(section: nat, h: Header): nat {
    if OutOfOrder(section, h) then section
    else if h.CSys? then C_SECTION
    else if h.CppSys? then CPP_SECTION
    else if IsMy(h) && section <= MY_H_SECTION then MY_H_SECTION
    else OTHER_H_SECTION
  }

  function SectionAfter(hs: seq<Header>): nat {
    if hs == [] then INITIAL_SECTION else NextSection(SectionAfter(hs[..|hs| - 1]), hs[|hs| - 1])
  }

  /** Whether header `i` is reported. */
  predicate ErrorAt(hs: seq<Header>, i: nat)
    requires i < |hs|
  {
    OutOfOrder(SectionAfter(hs[..i]), hs[i])
  }

  function TypeName(h: Header): string {
    match h
    case CSys => "C system header"
    case CppSys => "C++ system header"
    case LikelyMy => "header this file implements"
    case PossibleMy => "header this file may implement"
    case OtherHeader => "other header"
  }

  function SectionName(section: nat): string {
    if section == INITIAL_SECTION then "... nothing. (This can't be an error.)"
    else if section == MY_H_SECTION then "a header this file implements"
    else if section == C_SECTION then "C system header"
    else if section == CPP_SECTION then "C++ system header"
    else "other header"
  }

  class IncludeState {
    var section: nat
    var lastHeader: string

    constructor ()
      ensures section == SectionAfter([]) && lastHeader == ""
    {
      section, lastHeader := INITIAL_SECTION, "";
    }

    method ResetSection()
      modifies this
      ensures section == SectionAfter([]) && lastHeader == ""
    {
      section, lastHeader := INITIAL_SECTION, "";
    }

    method CheckNextIncludeOrder(h: Header, ghost before: seq<Header>) returns (message: string)
      requires section == SectionAfter(before)
      modifies this
      ensures section == SectionAfter(before + [h]) && section >= old(section)
      ensures message != "" <==> ErrorAt(before + [h], |before|)
      ensures message != "" ==>
                && message == "Found " + (if h.CSys? then "C system header" else "C++ system header") +
                              " after " + (if InLastGroup(before) then "other header" else "C++ system header")
      ensures lastHeader == if message != "" || section != old(section) then "" else old(lastHeader)
    {
      assert (before + [h])[..|before|] == before;
      SectionBound(before);
      SectionMeaning(before);
      var errorMessage := "Found " + TypeName(h) + " after " + SectionName(section);
      var lastSection := section;
      if h == CSys {
        if section <= C_SECTION {
          section := C_SECTION;
        } else {
          lastHeader := "";
          return errorMessage;
        }
      } else if h == CppSys {
        if section <= CPP_SECTION {
          section := CPP_SECTION;
        } else {
          lastHeader := "";
          return errorMessage;
        }
      } else if h == LikelyMy {
        section := if section <= MY_H_SECTION then MY_H_SECTION else OTHER_H_SECTION;
      } else if h == PossibleMy {
        section := if section <= MY_H_SECTION then MY_H_SECTION else OTHER_H_SECTION;
      } else {
        section := OTHER_H_SECTION;
      }
      if lastSection != section {
        lastHeader := "";
      }
      return "";
    }
  }

  lemma {:induction false} SectionBound(hs: seq<Header>)
    ensures SectionAfter(hs) <= OTHER_H_SECTION
  {
    if hs != [] { SectionBound(hs[..|hs| - 1]); }
  }

  // ----- What the section says about the headers seen

  ghost predicate SomeNotMy(hs: seq<Header>) {
    exists k :: 0 <= k < |hs| && !IsMy(hs[k])
  }

  ghost predicate SomeCpp(hs: seq<Header>) {
    exists k :: 0 <= k < |hs| && hs[k].CppSys?
  }

  /** Some header can only belong to the last group. */
  ghost predicate InLastGroup(hs: seq<Header>) {
    exists k :: 0 <= k < |hs| && (hs[k].OtherHeader? || (IsMy(hs[k]) && SomeNotMy(hs[..k])))
  }

  lemma Snoc(hs: seq<Header>)
    requires hs != []
    ensures var front, h := hs[..|hs| - 1], hs[|hs| - 1];
            && (SomeNotMy(hs) <==> SomeNotMy(front) || !IsMy(h))
            && (SomeCpp(hs) <==> SomeCpp(front) || h.CppSys?)
            && (InLastGroup(hs) <==> InLastGroup(front) || h.OtherHeader? || (IsMy(h) && SomeNotMy(front)))
  {
    var last := |hs| - 1;
    var front := hs[..last];
    assert forall k :: 0 <= k < last ==> front[k] == hs[k] && front[..k] == hs[..k];
  }

  /** The section, read as a statement about the headers so far. */
  lemma {:induction false} SectionMeaning(hs: seq<Header>)
    ensures var s := SectionAfter(hs);
            && (s >= MY_H_SECTION <==> hs != [])
            && (s >= C_SECTION <==> SomeNotMy(hs))
            && (s >= CPP_SECTION <==> SomeCpp(hs) || InLastGroup(hs))
            && (s == OTHER_H_SECTION <==> InLastGroup(hs))
    decreases |hs|
  {
    SectionBound(hs);
    if hs != [] {
      SectionMeaning(hs[..|hs| - 1]);
      Snoc(hs);
      LastGroupNotMy(hs[..|hs| - 1]);
    }
  }

  lemma LastGroupNotMy(hs: seq<Header>)
    ensures InLastGroup(hs) || SomeCpp(hs) ==> SomeNotMy(hs)
  {
    if InLastGroup(hs) {
      var k :| 0 <= k < |hs| && (hs[k].OtherHeader? || (IsMy(hs[k]) && SomeNotMy(hs[..k])));
      if IsMy(hs[k]) {
        var j :| 0 <= j < k && !IsMy(hs[..k][j]);
        assert !IsMy(hs[j]);
      }
    }
  }

  /** A header is reported exactly when something that must come after it came before. */
  lemma ErrorMeaning(hs: seq<Header>, i: nat)
    requires i < |hs|
    ensures ErrorAt(hs, i) <==>
            || (hs[i].CSys? && (SomeCpp(hs[..i]) || InLastGroup(hs[..i])))
            || (hs[i].CppSys? && InLastGroup(hs[..i]))
  {
    SectionMeaning(hs[..i]);
    SectionBound(hs[..i]);
  }

  // ----- The language without errors

  /** `hs` is My* C* C++* (My or Other)*, split at `a`, `b` and `c`. */
  ghost predicate SplitAt(hs: seq<Header>, a: int, b: int, c: int) {
    && 0 <= a <= b <= c <= |hs|
    && (forall k :: 0 <= k < a ==> IsMy(hs[k]))
    && (forall k :: a <= k < b ==> hs[k].CSys?)
    && (forall k :: b <= k < c ==> hs[k].CppSys?)
    && (forall k :: c <= k < |hs| ==> IsMy(hs[k]) || hs[k].OtherHeader?)
  }

  ghost predicate InOrder(hs: seq<Header>) {
    exists a, b, c :: SplitAt(hs, a, b, c)
  }

  ghost predicate NoErrors(hs: seq<Header>) {
    forall i :: 0 <= i < |hs| ==> !ErrorAt(hs, i)
  }

  lemma ErrorsOfPrefix(hs: seq<Header>)
    requires hs != []
    ensures NoErrors(hs) <==> NoErrors(hs[..|hs| - 1]) && !ErrorAt(hs, |hs| - 1)
  {
    var front := hs[..|hs| - 1];
    assert forall i :: 0 <= i < |front| ==> front[..i] == hs[..i] && front[i] == hs[i];
    assert forall i :: 0 <= i < |front| ==> (ErrorAt(front, i) <==> ErrorAt(hs, i));
  }

  /** Without errors so far, the headers split so that the section names the last group begun. */
  lemma {:induction false} NoErrorsSplit(hs: seq<Header>) returns (a: int, b: int, c: int)
    requires NoErrors(hs)
    ensures SplitAt(hs, a, b, c)
    ensures SectionAfter(hs) <= CPP_SECTION ==> c == |hs|
    ensures SectionAfter(hs) <= C_SECTION ==> b == |hs|
    ensures SectionAfter(hs) <= MY_H_SECTION ==> a == |hs|
    decreases |hs|
  {
    if hs == [] {
      a, b, c := 0, 0, 0;
    } else {
      ErrorsOfPrefix(hs);
      var last := |hs| - 1;
      a, b, c := NoErrorsSplit(hs[..last]);
      var section := SectionAfter(hs);
      if section <= CPP_SECTION { c := |hs|; }
      if section <= C_SECTION { b := |hs|; }
      if section <= MY_H_SECTION { a := |hs|; }
      assert forall k :: 0 <= k < last ==> hs[..last][k] == hs[k];
    }
  }

  /** Before the last group begins, nothing belongs to it. */
  lemma BeforeLastGroup(hs: seq<Header>, a: int, b: int, c: int, i: nat)
    requires SplitAt(hs, a, b, c) && i <= c
    ensures !InLastGroup(hs[..i])
  {
    forall k | 0 <= k < i
      ensures !hs[..i][k].OtherHeader? && (IsMy(hs[..i][k]) ==> !SomeNotMy(hs[..i][..k]))
    {
      assert hs[..i][k] == hs[k];
      if IsMy(hs[k]) {
        forall j | 0 <= j < k ensures IsMy(hs[..i][..k][j]) { assert hs[..i][..k][j] == hs[j]; }
      }
    }
  }

  lemma SplitNoError(hs: seq<Header>, a: int, b: int, c: int, i: nat)
    requires SplitAt(hs, a, b, c) && i < |hs|
    ensures !ErrorAt(hs, i)
  {
    ErrorMeaning(hs, i);
    if i < c { BeforeLastGroup(hs, a, b, c, i); }
  }

  /** No header is reported exactly when the headers are My* C* C++* (My or Other)*. */
  lemma NoErrorsIffInOrder(hs: seq<Header>)
    ensures NoErrors(hs) <==> InOrder(hs)
  {
    if NoErrors(hs) {
      var a, b, c := NoErrorsSplit(hs);
    }
    if InOrder(hs) {
      var a, b, c :| SplitAt(hs, a, b, c);
      forall i | 0 <= i < |hs| ensures !ErrorAt(hs, i) { SplitNoError(hs, a, b, c, i); }
    }
  }
}
