/** Orderings, stable sorting and filtering of sequences. */
module Sorting {
  datatype Ordering = Less | Equal | Greater

  function Flip(o: Ordering): Ordering {
    match o case Less => Greater case Equal => Equal case Greater => Less
  }

  function Then(first: Ordering, second: Ordering): Ordering {
    if first == Equal then second else first
  }

  /** What a comparison must obey for a sort by it to mean anything. */
  ghost predicate Lawful<T(!new)>(cmp: (T, T) -> Ordering) {
    && (forall a, b :: cmp(b, a) == Flip(cmp(a, b)))
    && (forall a, b, c :: cmp(a, b) != Greater && cmp(b, c) != Greater ==> cmp(a, c) != Greater)
  }

  /** The same, of the values of one kind only. */
  ghost predicate LawfulOn<T(!new)>(cmp: (T, T) -> Ordering, on: T -> bool) {
    && (forall a, b | on(a) && on(b) :: cmp(b, a) == Flip(cmp(a, b)))
    && (forall a, b, c | on(a) && on(b) && on(c) :: cmp(a, b) != Greater && cmp(b, c) != Greater ==> cmp(a, c) != Greater)
  }

  lemma LawfulParts<T(!new)>(cmp: (T, T) -> Ordering, on: T -> bool)
    requires forall a, b | on(a) && on(b) :: cmp(b, a) == Flip(cmp(a, b))
    requires forall a, b, c | on(a) && on(b) && on(c) && cmp(a, b) != Greater && cmp(b, c) != Greater :: cmp(a, c) != Greater
    ensures LawfulOn(cmp, on)
  {
  }

  function Among<T(==)>(s: seq<T>): T -> bool {
    (x: T) => x in s
  }

  predicate Le<T>(cmp: (T, T) -> Ordering, a: T, b: T) {
    cmp(a, b) != Greater
  }

  ghost predicate Sorted<T>(cmp: (T, T) -> Ordering, s: seq<T>) {
    forall i, j :: 0 <= i < j < |s| ==> Le(cmp, s[i], s[j])
  }

  /** Place `x` after everything not greater than it. */
  function Place<T>(cmp: (T, T) -> Ordering, x: T, s: seq<T>): seq<T> {
    if s == [] then [x]
    else if Le(cmp, s[0], x) then [s[0]] + Place(cmp, x, s[1..])
    else [x] + s
  }

  /** The stable sort. */
  function Sort<T>(cmp: (T, T) -> Ordering, s: seq<T>): seq<T> {
    if s == [] then [] else Place(cmp, s[|s| - 1], Sort(cmp, s[..|s| - 1]))
  }

  function Filter<T>(p: T -> bool, s: seq<T>): (r: seq<T>)
    ensures |r| <= |s|
  {
    if s == [] then []
    else Filter(p, s[..|s| - 1]) + if p(s[|s| - 1]) then [s[|s| - 1]] else []
  }

  function Take<T>(s: seq<T>, n: nat): seq<T> {
    if |s| <= n then s else s[..n]
  }

  // -- sorting -------------------------------------------------------------

  lemma {:induction false} PlaceMembers<T>(cmp: (T, T) -> Ordering, x: T, s: seq<T>)
    ensures multiset(Place(cmp, x, s)) == multiset(s) + multiset{x}
    ensures |Place(cmp, x, s)| == |s| + 1
    ensures forall y | y in Place(cmp, x, s) :: y == x || y in s
  {
    if s != [] {
      assert s == [s[0]] + s[1..];
      if Le(cmp, s[0], x) { PlaceMembers(cmp, x, s[1..]); }
    }
  }

  lemma {:induction false} PlaceSorted<T(!new)>(cmp: (T, T) -> Ordering, x: T, s: seq<T>)
    requires Lawful(cmp) && Sorted(cmp, s)
    ensures Sorted(cmp, Place(cmp, x, s))
  {
    if s != [] {
      if Le(cmp, s[0], x) {
        PlaceSorted(cmp, x, s[1..]);
        PlaceMembers(cmp, x, s[1..]);
        SortedFront(cmp, s[0], Place(cmp, x, s[1..]));
      } else {
        LessThanAll(cmp, x, s);
        SortedFront(cmp, x, s);
      }
    }
  }

  lemma SortedFront<T>(cmp: (T, T) -> Ordering, x: T, s: seq<T>)
    requires Sorted(cmp, s) && forall y | y in s :: Le(cmp, x, y)
    ensures Sorted(cmp, [x] + s)
  {
    var t := [x] + s;
    forall i, j | 0 <= i < j < |t| ensures Le(cmp, t[i], t[j]) {
      assert t[j] == s[j - 1];
      if i == 0 { assert t[j] in s; } else { assert t[i] == s[i - 1]; }
    }
  }

  /** Strictly below the first is strictly below every one. */
  lemma LessThanAll<T(!new)>(cmp: (T, T) -> Ordering, x: T, s: seq<T>)
    requires Lawful(cmp) && Sorted(cmp, s) && s != [] && !Le(cmp, s[0], x)
    ensures forall y | y in s :: cmp(x, y) == Less
  {
    forall y | y in s ensures cmp(x, y) == Less {
      var j :| 0 <= j < |s| && s[j] == y;
      assert Le(cmp, s[0], s[j]) by { assert cmp(y, y) == Flip(cmp(y, y)); }
      if Le(cmp, y, x) {
        assert false;
      }
    }
  }

  /** Whatever the comparison, sorting only reorders. */
  lemma {:induction false} SortMembers<T(!new)>(cmp: (T, T) -> Ordering, s: seq<T>)
    ensures multiset(Sort(cmp, s)) == multiset(s) && |Sort(cmp, s)| == |s|
    ensures forall x :: x in Sort(cmp, s) <==> x in s
  {
    if s != [] {
      var n := |s| - 1;
      SortMembers(cmp, s[..n]);
      PlaceMembers(cmp, s[n], Sort(cmp, s[..n]));
      assert s == s[..n] + [s[n]];
    }
    SameMembers(Sort(cmp, s), s);
  }

  lemma SameMembers<T(!new)>(a: seq<T>, b: seq<T>)
    requires multiset(a) == multiset(b)
    ensures forall x :: x in a <==> x in b
  {
    forall x ensures x in a <==> x in b {
      assert x in multiset(a) <==> x in multiset(b);
    }
  }

  lemma {:induction false} SortSorts<T(!new)>(cmp: (T, T) -> Ordering, s: seq<T>)
    requires Lawful(cmp)
    ensures Sorted(cmp, Sort(cmp, s)) && multiset(Sort(cmp, s)) == multiset(s) && |Sort(cmp, s)| == |s|
  {
    SortMembers(cmp, s);
    if s != [] {
      var n := |s| - 1;
      SortSorts(cmp, s[..n]);
      PlaceSorted(cmp, s[n], Sort(cmp, s[..n]));
    }
  }

  // -- filtering -----------------------------------------------------------

  lemma {:induction false} FilterSplit<T>(p: T -> bool, a: seq<T>, b: seq<T>)
    ensures Filter(p, a + b) == Filter(p, a) + Filter(p, b)
  {
    if b == [] {
      assert a + b == a;
    } else {
      assert (a + b)[..|a + b| - 1] == a + b[..|b| - 1];
      FilterSplit(p, a, b[..|b| - 1]);
    }
  }

  lemma FilterFront<T>(p: T -> bool, s: seq<T>)
    requires s != []
    ensures Filter(p, s) == (if p(s[0]) then [s[0]] else []) + Filter(p, s[1..])
  {
    assert s == [s[0]] + s[1..];
    FilterSplit(p, [s[0]], s[1..]);
    assert [s[0]][..0] == [];
  }

  lemma {:induction false} FilterMembers<T>(p: T -> bool, s: seq<T>)
    ensures forall x | x in Filter(p, s) :: x in s && p(x)
    ensures forall x | x in s && p(x) :: x in Filter(p, s)
  {
    if s != [] {
      var n := |s| - 1;
      FilterMembers(p, s[..n]);
      assert s == s[..n] + [s[n]];
    }
  }

  lemma {:induction false} FilterKeepsOrder<T>(cmp: (T, T) -> Ordering, p: T -> bool, s: seq<T>)
    requires Sorted(cmp, s)
    ensures Sorted(cmp, Filter(p, s))
  {
    if s != [] {
      var n := |s| - 1;
      FilterKeepsOrder(cmp, p, s[..n]);
      FilterMembers(p, s[..n]);
      var kept := Filter(p, s[..n]);
      forall y | y in kept ensures Le(cmp, y, s[n]) {
        assert y in s[..n];
        var i :| 0 <= i < n && s[..n][i] == y;
      }
    }
  }

  lemma {:induction false} FilterIdentity<T>(p: T -> bool, s: seq<T>)
    requires forall x | x in s :: p(x)
    ensures Filter(p, s) == s
  {
    if s != [] { FilterIdentity(p, s[..|s| - 1]); }
  }

  lemma {:induction false} FilterNothing<T>(p: T -> bool, s: seq<T>)
    requires forall x | x in s :: !p(x)
    ensures Filter(p, s) == []
  {
    if s != [] { FilterNothing(p, s[..|s| - 1]); }
  }

  /** Two filters in a row are one, in either order. */
  lemma {:induction false} FilterTwice<T>(p: T -> bool, q: T -> bool, both: T -> bool, s: seq<T>)
    requires forall x | x in s :: both(x) <==> p(x) && q(x)
    ensures Filter(p, Filter(q, s)) == Filter(both, s) == Filter(q, Filter(p, s))
  {
    if s != [] {
      var n := |s| - 1;
      FilterTwice(p, q, both, s[..n]);
      var one := [s[n]];
      assert one[..0] == [];
      FilterSplit(p, Filter(q, s[..n]), if q(s[n]) then one else []);
      FilterSplit(q, Filter(p, s[..n]), if p(s[n]) then one else []);
    }
  }

  lemma {:induction false} FilterPlace<T(!new)>(cmp: (T, T) -> Ordering, p: T -> bool, x: T, s: seq<T>)
    requires Lawful(cmp) && Sorted(cmp, s)
    ensures Filter(p, Place(cmp, x, s)) == if p(x) then Place(cmp, x, Filter(p, s)) else Filter(p, s)
  {
    hide Filter;
    var placed := Place(cmp, x, s);
    FilterFront(p, placed);
    FilterNone(p);
    if s == [] {
      assert placed[1..] == [];
    } else if Le(cmp, s[0], x) {
      FilterFront(p, s);
      FilterPlace(cmp, p, x, s[1..]);
      assert placed[1..] == Place(cmp, x, s[1..]);
      if !p(s[0]) {
        assert Filter(p, s) == Filter(p, s[1..]);
      } else if p(x) {
        assert Filter(p, s)[1..] == Filter(p, s[1..]);
        assert Place(cmp, x, Filter(p, s)) == [s[0]] + Place(cmp, x, Filter(p, s[1..]));
      }
    } else {
      assert placed[1..] == s;
      FilterMembers(p, s);
      LessThanAll(cmp, x, s);
      if p(x) && Filter(p, s) != [] {
        assert Filter(p, s)[0] in Filter(p, s);
      }
    }
  }

  lemma FilterNone<T>(p: T -> bool)
    ensures Filter(p, []) == []
  {
  }

  lemma SortNext<T>(cmp: (T, T) -> Ordering, s: seq<T>, x: T)
    ensures Sort(cmp, s + [x]) == Place(cmp, x, Sort(cmp, s))
  {
    assert (s + [x])[..|s|] == s;
  }

  /** Filtering before a sort or after it is the same. */
  lemma {:induction false} FilterSort<T(!new)>(cmp: (T, T) -> Ordering, p: T -> bool, s: seq<T>)
    requires Lawful(cmp)
    ensures Filter(p, Sort(cmp, s)) == Sort(cmp, Filter(p, s))
  {
    if s != [] {
      var n := |s| - 1;
      FilterSort(cmp, p, s[..n]);
      FilterSortNext(cmp, p, s[..n], s[n]);
      assert s == s[..n] + [s[n]];
    }
  }

  lemma FilterSortNext<T(!new)>(cmp: (T, T) -> Ordering, p: T -> bool, s: seq<T>, x: T)
    requires Lawful(cmp) && Filter(p, Sort(cmp, s)) == Sort(cmp, Filter(p, s))
    ensures Filter(p, Sort(cmp, s + [x])) == Sort(cmp, Filter(p, s + [x]))
  {
    hide *;
    SortSorts(cmp, s);
    FilterPlace(cmp, p, x, Sort(cmp, s));
    SortNext(cmp, s, x);
    FilterNext(p, s, x);
    if p(x) { SortNext(cmp, Filter(p, s), x); }
  }

  lemma FilterNext<T>(p: T -> bool, s: seq<T>, x: T)
    ensures Filter(p, s + [x]) == if p(x) then Filter(p, s) + [x] else Filter(p, s)
  {
    assert (s + [x])[..|s|] == s;
  }

  // -- comparisons lawful of some values only ------------------------------

  /** The comparison on values of the kind, all others after them and alike. */
  function Confined<T>(cmp: (T, T) -> Ordering, on: T -> bool): (T, T) -> Ordering {
    (a: T, b: T) =>
      if on(a) && on(b) then cmp(a, b) else if on(a) then Less else if on(b) then Greater else Equal
  }

  lemma ConfinedLawful<T(!new)>(cmp: (T, T) -> Ordering, on: T -> bool)
    requires LawfulOn(cmp, on)
    ensures Lawful(Confined(cmp, on))
  {
  }

  /** Which elements there are is all that counts. */
  lemma SameLawful<T(!new)>(cmp: (T, T) -> Ordering, a: seq<T>, b: seq<T>)
    requires forall x :: x in a <==> x in b
    ensures LawfulOn(cmp, Among(a)) <==> LawfulOn(cmp, Among(b))
  {
  }

  /** Elements compared as others are, are ordered as lawfully. */
  lemma MappedLawful<T(!new), U(!new)>(cmp: (T, T) -> Ordering, s: seq<T>, other: (U, U) -> Ordering, t: seq<U>)
    requires |s| == |t| && LawfulOn(cmp, Among(s))
    requires forall i, j | 0 <= i < |s| && 0 <= j < |s| :: other(t[i], t[j]) == cmp(s[i], s[j])
    ensures LawfulOn(other, Among(t))
  {
    hide LawfulOn;
    forall a, b | a in t && b in t ensures other(b, a) == Flip(other(a, b)) {
      var i :| 0 <= i < |t| && t[i] == a;
      var j :| 0 <= j < |t| && t[j] == b;
      Three(cmp, s, i, j, j);
    }
    forall a, b, c | a in t && b in t && c in t && other(a, b) != Greater && other(b, c) != Greater ensures other(a, c) != Greater {
      var i :| 0 <= i < |t| && t[i] == a;
      var j :| 0 <= j < |t| && t[j] == b;
      var k :| 0 <= k < |t| && t[k] == c;
      Three(cmp, s, i, j, k);
    }
    LawfulParts(other, Among(t));
  }

  lemma Three<T(!new)>(cmp: (T, T) -> Ordering, s: seq<T>, i: nat, j: nat, k: nat)
    requires LawfulOn(cmp, Among(s)) && i < |s| && j < |s| && k < |s|
    ensures cmp(s[j], s[i]) == Flip(cmp(s[i], s[j]))
    ensures cmp(s[i], s[j]) != Greater && cmp(s[j], s[k]) != Greater ==> cmp(s[i], s[k]) != Greater
  {
    assert Among(s)(s[i]) && Among(s)(s[j]) && Among(s)(s[k]);
  }

  lemma {:induction false} PlaceConfined<T(!new)>(cmp: (T, T) -> Ordering, on: T -> bool, x: T, s: seq<T>)
    requires on(x) && forall y | y in s :: on(y)
    ensures Place(Confined(cmp, on), x, s) == Place(cmp, x, s)
  {
    if s != [] {
      assert on(s[0]);
      PlaceConfined(cmp, on, x, s[1..]);
    }
  }

  /** Sorting compares nothing but what is sorted. */
  lemma {:induction false} SortConfined<T(!new)>(cmp: (T, T) -> Ordering, on: T -> bool, s: seq<T>)
    requires forall x | x in s :: on(x)
    ensures Sort(Confined(cmp, on), s) == Sort(cmp, s)
  {
    if s != [] {
      var n := |s| - 1;
      SortConfined(cmp, on, s[..n]);
      SortMembers(cmp, s[..n]);
      forall y | y in Sort(cmp, s[..n]) ensures on(y) {
        assert y in s[..n];
      }
      PlaceConfined(cmp, on, s[n], Sort(cmp, s[..n]));
    }
  }

  lemma SortSortsAmong<T(!new)>(cmp: (T, T) -> Ordering, s: seq<T>)
    requires LawfulOn(cmp, Among(s))
    ensures Sorted(cmp, Sort(cmp, s))
  {
    var c := Confined(cmp, Among(s));
    ConfinedLawful(cmp, Among(s));
    SortConfined(cmp, Among(s), s);
    SortSorts(c, s);
    SortMembers(cmp, s);
    hide Lawful, LawfulOn, Sort;
    var t := Sort(cmp, s);
    forall i, j | 0 <= i < j < |t| ensures Le(cmp, t[i], t[j]) {
      assert t[i] in t && t[j] in t;
      assert Le(c, t[i], t[j]);
    }
  }

  /** Filtering before a sort or after it is the same when the comparison is lawful of what is sorted. */
  lemma FilterSortAmong<T(!new)>(cmp: (T, T) -> Ordering, p: T -> bool, s: seq<T>)
    requires LawfulOn(cmp, Among(s))
    ensures Filter(p, Sort(cmp, s)) == Sort(cmp, Filter(p, s))
  {
    ConfinedLawful(cmp, Among(s));
    SortConfined(cmp, Among(s), s);
    FilterMembers(p, s);
    SortConfined(cmp, Among(s), Filter(p, s));
    FilterSort(Confined(cmp, Among(s)), p, s);
  }

  /** A sort that came out in order shows that the comparison is lawful of what was sorted, if it reads the same both ways. */
  lemma SortedLawful<T(!new)>(cmp: (T, T) -> Ordering, t: seq<T>)
    requires forall a, b | a in t && b in t :: cmp(b, a) == Flip(cmp(a, b))
    requires forall a, b | a in t && b in t :: cmp(a, b) == Equal ==> a == b
    requires Sorted(cmp, t)
    ensures LawfulOn(cmp, Among(t))
  {
    forall a, b, c | a in t && b in t && c in t && cmp(a, b) != Greater && cmp(b, c) != Greater ensures cmp(a, c) != Greater {
      var i :| 0 <= i < |t| && t[i] == a;
      var j :| 0 <= j < |t| && t[j] == b;
      var k :| 0 <= k < |t| && t[k] == c;
      assert i < k ==> Le(cmp, t[i], t[k]);
      assert j < i ==> Le(cmp, t[j], t[i]);
      assert k < j ==> Le(cmp, t[k], t[j]);
      assert cmp(a, a) == Flip(cmp(a, a));
      assert cmp(b, a) == Flip(cmp(a, b)) && cmp(c, b) == Flip(cmp(b, c));
    }
  }

  // -- comparisons ---------------------------------------------------------

  /** Comparing by one thing and breaking ties by another is lawful when both are. */
  lemma ThenLawful<T(!new)>(c1: (T, T) -> Ordering, c2: (T, T) -> Ordering, both: (T, T) -> Ordering, on: T -> bool)
    requires LawfulOn(c1, on) && LawfulOn(c2, on)
    requires forall a, b :: both(a, b) == Then(c1(a, b), c2(a, b))
    ensures LawfulOn(both, on)
  {
    forall a, b, c | on(a) && on(b) && on(c) && both(a, b) != Greater && both(b, c) != Greater ensures both(a, c) != Greater {
      assert c1(a, c) != Greater;
      if c1(a, c) == Equal {
        assert c1(c, a) == Equal;
        assert c1(b, a) != Greater && c1(c, b) != Greater;
        assert c1(a, b) == Equal && c1(b, c) == Equal;
      }
    }
  }
}
