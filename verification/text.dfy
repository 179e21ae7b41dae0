/** String helpers with Python's meaning: `str.rfind` for one character and the
    code-point order `sorted()` uses on `str` keys. */
module Text {

  /** `s.rfind(c)`: the index of the last `c` in `s`, or -1 when there is none. */
  function RFind(s: string, c: char): (r: int)
    ensures -1 <= r < |s|
    ensures r == -1 <==> c !in s
    ensures 0 <= r ==> s[r] == c && c !in s[r + 1..]
  {
    if |s| == 0 then -1
    else if s[|s| - 1] == c then |s| - 1
    else
      var r := RFind(s[..|s| - 1], c);
      assert s == s[..|s| - 1] + [s[|s| - 1]];
      RFindExtend(s[..|s| - 1], s[|s| - 1], c, r);
      r
  }

  /** Appending a character other than `c` keeps the answer for the prefix. */
  lemma {:induction false} RFindExtend(init: string, x: char, c: char, r: int)
    requires x != c && -1 <= r < |init|
    requires r == -1 <==> c !in init
    requires 0 <= r ==> init[r] == c && c !in init[r + 1..]
    ensures r == -1 <==> c !in init + [x]
    ensures 0 <= r ==> (init + [x])[r] == c && c !in (init + [x])[r + 1..]
  {
    if 0 <= r {
      assert (init + [x])[r + 1..] == init[r + 1..] + [x];
    }
  }

  /** The last `c` of `a + [c] + b` is the one after `a` when `b` has none. */
  lemma RFindSplit(a: string, c: char, b: string)
    requires c !in b
    ensures RFind(a + [c] + b, c) == |a|
  {
    assert (a + [c] + b)[|a|] == c;
  }

  /** Python's `a < b` on strings: lexicographic on code points, a proper prefix first. */
  predicate Below(a: string, b: string)
  {
    if |a| == 0 then |b| > 0
    else if |b| == 0 then false
    else if a[0] != b[0] then a[0] < b[0]
    else Below(a[1..], b[1..])
  }

  lemma {:induction false} BelowIrreflexive(a: string)
    ensures !Below(a, a)
  {
    if |a| > 0 {
      BelowIrreflexive(a[1..]);
    }
  }

  /** The keys of `items` are in the strictly increasing order `sorted(d.items())`
      yields for a dict `d`. */
  predicate SortedItems<T>(items: seq<(string, T)>)
  {
    forall i, j :: 0 <= i < j < |items| ==> Below(items[i].0, items[j].0)
  }

  /** A dict's items have pairwise distinct keys. */
  lemma SortedItemsDistinct<T>(items: seq<(string, T)>)
    requires SortedItems(items)
    ensures forall i, j :: 0 <= i < j < |items| ==> items[i].0 != items[j].0
  {
    forall i, j | 0 <= i < j < |items|
      ensures items[i].0 != items[j].0
    {
      BelowIrreflexive(items[i].0);
    }
  }
}
