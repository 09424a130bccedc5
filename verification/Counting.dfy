/** How often something is in a list. */
module Counting {

  function Times<T(==)>(items: seq<T>, x: T): nat {
    if items == [] then 0
    else Times(items[..|items| - 1], x) + if items[|items| - 1] == x then 1 else 0
  }

  lemma TimesLast<T>(items: seq<T>, last: T, x: T)
    ensures Times(items + [last], x) == Times(items, x) + if last == x then 1 else 0
  {
    assert (items + [last])[..|items|] == items;
  }

  lemma {:induction false} TimesIn<T>(items: seq<T>, x: T)
    ensures x in items <==> Times(items, x) > 0
  {
    if items != [] {
      TimesIn(items[..|items| - 1], x);
      assert items == items[..|items| - 1] + [items[|items| - 1]];
    }
  }
}
