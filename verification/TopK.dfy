/**
 * The k smallest rows without sorting them all: a heap that holds k rows, gives
 * up its worst when a better one arrives, and is sorted once at the end.
 */
module TopK {
  import opened Sorting

  /** No two rows tie: the record id settles what the keys do not. */
  ghost predicate Untied<T(!new)>(cmp: (T, T) -> Ordering, s: seq<T>) {
    forall i, j :: 0 <= i < |s| && 0 <= j < |s| && i != j ==> cmp(s[i], s[j]) != Equal
  }

  lemma Reflexive<T(!new)>(cmp: (T, T) -> Ordering, x: T)
    requires Lawful(cmp)
    ensures cmp(x, x) == Equal
  {
    assert cmp(x, x) == Flip(cmp(x, x));
  }

  lemma BothWays<T(!new)>(cmp: (T, T) -> Ordering, x: T, y: T)
    requires Lawful(cmp)
    ensures Le(cmp, x, y) && Le(cmp, y, x) ==> cmp(x, y) == Equal
    ensures Le(cmp, x, y) <==> cmp(y, x) != Less
  {
    assert cmp(y, x) == Flip(cmp(x, y));
  }

  /** A row above the k-th does not reach the first k. */
  lemma {:induction false} PlaceBeyond<T(!new)>(cmp: (T, T) -> Ordering, x: T, s: seq<T>, k: nat)
    requires Lawful(cmp) && Sorted(cmp, s) && 0 < k <= |s| && Le(cmp, s[k - 1], x)
    ensures Take(Place(cmp, x, s), k) == s[..k]
  {
    PlaceMembers(cmp, x, s);
    if k == 1 {
    } else {
      assert Le(cmp, s[0], s[k - 1]);
      assert Le(cmp, s[0], x);
      assert s[1..][k - 2] == s[k - 1];
      PlaceBeyond(cmp, x, s[1..], k - 1);
      assert s[..k] == [s[0]] + s[1..][..k - 1];
      assert Place(cmp, x, s) == [s[0]] + Place(cmp, x, s[1..]);
      hide Place;
      PlaceMembers(cmp, x, s[1..]);
    }
  }

  /** A row below the k-th takes its place among the first k. */
  lemma {:induction false} PlaceAmong<T(!new)>(cmp: (T, T) -> Ordering, x: T, s: seq<T>, k: nat)
    requires Lawful(cmp) && Sorted(cmp, s) && 0 < k <= |s| && cmp(x, s[k - 1]) == Less
    ensures Take(Place(cmp, x, s), k) == Place(cmp, x, s[..k - 1])
  {
    BothWays(cmp, s[k - 1], x);
    if Le(cmp, s[0], x) {
      assert k > 1;
      assert s[1..][k - 2] == s[k - 1];
      PlaceAmong(cmp, x, s[1..], k - 1);
      assert s[..k - 1][1..] == s[1..][..k - 2];
      assert Place(cmp, x, s) == [s[0]] + Place(cmp, x, s[1..]);
      assert Place(cmp, x, s[..k - 1]) == [s[0]] + Place(cmp, x, s[1..][..k - 2]);
      hide Place;
      PlaceMembers(cmp, x, s[1..]);
    } else {
      assert Place(cmp, x, s) == [x] + s;
      assert k > 1 ==> s[..k - 1][0] == s[0];
      assert Place(cmp, x, s[..k - 1]) == [x] + s[..k - 1];
    }
  }

  lemma TakeAll<T>(s: seq<T>, k: nat)
    requires |s| <= k
    ensures Take(s, k) == s
  {
  }

  /** The k smallest after one more row: while there is room it joins them. */
  lemma TakeRoom<T(!new)>(cmp: (T, T) -> Ordering, s: seq<T>, x: T, k: nat)
    requires Lawful(cmp) && |s| < k
    ensures multiset(Take(Sort(cmp, s + [x]), k)) == multiset(Take(Sort(cmp, s), k)) + multiset{x}
  {
    SortSorts(cmp, s);
    SortNext(cmp, s, x);
    hide Sort, Place, Take, Lawful;
    PlaceMembers(cmp, x, Sort(cmp, s));
    TakeAll(Sort(cmp, s), k);
    TakeAll(Sort(cmp, s + [x]), k);
  }

  /** Once there is none, it takes the place of their worst exactly when it beats it. */
  lemma TakeFull<T(!new)>(cmp: (T, T) -> Ordering, s: seq<T>, x: T, k: nat)
    requires Lawful(cmp) && 0 < k <= |s|
    ensures |Take(Sort(cmp, s), k)| == k
    ensures var top := Take(Sort(cmp, s), k);
      if cmp(x, top[k - 1]) == Less
      then multiset(Take(Sort(cmp, s + [x]), k)) == multiset(top[..k - 1]) + multiset{x}
      else Take(Sort(cmp, s + [x]), k) == top
  {
    SortSorts(cmp, s);
    SortNext(cmp, s, x);
    hide Sort, Place, Sorted, Le, Lawful;
    var all := Sort(cmp, s);
    BothWays(cmp, all[k - 1], x);
    if cmp(x, all[k - 1]) == Less {
      PlaceAmong(cmp, x, all, k);
      PlaceMembers(cmp, x, all[..k - 1]);
      assert all[..k][..k - 1] == all[..k - 1];
    } else {
      PlaceBeyond(cmp, x, all, k);
    }
  }

  /** With no ties a sort depends only on what is sorted. */
  lemma {:induction false} SortedOnce<T(!new)>(cmp: (T, T) -> Ordering, a: seq<T>, b: seq<T>)
    requires Lawful(cmp) && Untied(cmp, a) && Sorted(cmp, a) && Sorted(cmp, b) && multiset(a) == multiset(b)
    ensures a == b
    decreases |a|
  {
    assert |a| == |multiset(a)| == |multiset(b)| == |b|;
    if a != [] {
      var n := |a| - 1;
      LastSame(cmp, a, b);
      FrontSame(a, b);
      assert Untied(cmp, a[..n]) && Sorted(cmp, a[..n]) && Sorted(cmp, b[..n]);
      SortedOnce(cmp, a[..n], b[..n]);
      assert a == a[..n] + [a[n]] && b == b[..n] + [b[n]];
    }
  }

  lemma FrontSame<T>(a: seq<T>, b: seq<T>)
    requires a != [] && |a| == |b| && a[|a| - 1] == b[|b| - 1] && multiset(a) == multiset(b)
    ensures multiset(a[..|a| - 1]) == multiset(b[..|b| - 1])
  {
    var n := |a| - 1;
    assert a == a[..n] + [a[n]] && b == b[..n] + [b[n]];
    assert multiset(a[..n]) == multiset(a) - multiset{a[n]};
    assert multiset(b[..n]) == multiset(b) - multiset{b[n]};
  }

  lemma LastSame<T(!new)>(cmp: (T, T) -> Ordering, a: seq<T>, b: seq<T>)
    requires Lawful(cmp) && Untied(cmp, a) && Sorted(cmp, a) && Sorted(cmp, b) && multiset(a) == multiset(b)
    requires a != [] && |a| == |b|
    ensures a[|a| - 1] == b[|b| - 1]
  {
    var n := |a| - 1;
    assert a[n] in multiset(b) && b[n] in multiset(a);
    var i :| 0 <= i < |b| && b[i] == a[n];
    var j :| 0 <= j < |a| && a[j] == b[n];
    Reflexive(cmp, a[n]);
    Reflexive(cmp, b[n]);
    assert Le(cmp, a[j], a[n]) && Le(cmp, b[i], b[n]);
    BothWays(cmp, a[j], a[n]);
  }

  lemma UntiedSame<T(!new)>(cmp: (T, T) -> Ordering, a: seq<T>, b: seq<T>)
    requires Lawful(cmp) && Untied(cmp, a) && multiset(a) == multiset(b)
    ensures Sort(cmp, a) == Sort(cmp, b) && Untied(cmp, Sort(cmp, a))
  {
    SortSorts(cmp, a);
    SortSorts(cmp, b);
    UntiedAny(cmp, a, Sort(cmp, a));
    SortedOnce(cmp, Sort(cmp, a), Sort(cmp, b));
  }

  /** The same of a comparison lawful of what is sorted. */
  lemma UntiedSameAmong<T(!new)>(cmp: (T, T) -> Ordering, on: T -> bool, a: seq<T>, b: seq<T>)
    requires LawfulOn(cmp, on) && forall x | x in a :: on(x)
    requires Untied(cmp, a) && multiset(a) == multiset(b)
    ensures Sort(cmp, a) == Sort(cmp, b)
  {
    var c := Confined(cmp, on);
    ConfinedLawful(cmp, on);
    SameMembers(a, b);
    UntiedConfined(cmp, on, a);
    SortConfined(cmp, on, a);
    SortConfined(cmp, on, b);
    UntiedSame(c, a, b);
  }

  lemma UntiedConfined<T(!new)>(cmp: (T, T) -> Ordering, on: T -> bool, s: seq<T>)
    requires Untied(cmp, s) && forall x | x in s :: on(x)
    ensures Untied(Confined(cmp, on), s)
  {
    forall i, j | 0 <= i < |s| && 0 <= j < |s| && i != j ensures Confined(cmp, on)(s[i], s[j]) != Equal {
      assert s[i] in s && s[j] in s;
    }
  }

  /** Whether rows tie does not depend on their order. */
  lemma UntiedAny<T(!new)>(cmp: (T, T) -> Ordering, a: seq<T>, b: seq<T>)
    requires Lawful(cmp) && Untied(cmp, a) && multiset(a) == multiset(b)
    ensures Untied(cmp, b)
  {
    forall i, j | 0 <= i < |b| && 0 <= j < |b| && i != j ensures cmp(b[i], b[j]) != Equal {
      assert b[i] in multiset(a) && b[j] in multiset(a);
      var p :| 0 <= p < |a| && a[p] == b[i];
      var q :| 0 <= q < |a| && a[q] == b[j];
      if p == q {
        Twice(b, i, j);
        var r := SecondPlace(a, p);
        assert cmp(a[p], a[r]) != Equal;
      }
    }
  }

  lemma Twice<T>(b: seq<T>, i: nat, j: nat)
    requires i < |b| && j < |b| && i != j && b[i] == b[j]
    ensures multiset(b)[b[i]] >= 2
  {
    var x, y := if i < j then i else j, if i < j then j else i;
    assert b == b[..x] + [b[x]] + b[x + 1..y] + [b[y]] + b[y + 1..];
  }

  lemma SecondPlace<T>(a: seq<T>, p: nat) returns (r: nat)
    requires p < |a| && multiset(a)[a[p]] >= 2
    ensures r < |a| && r != p && a[r] == a[p]
  {
    var rest := a[..p] + a[p + 1..];
    assert a == a[..p] + [a[p]] + a[p + 1..];
    assert a[p] in multiset(rest);
    var q :| 0 <= q < |rest| && rest[q] == a[p];
    r := if q < p then q else q + 1;
  }

  /** What a binary heap's `peek` promises: a row none of the others is above. */
  method Worst<T(!new, ==)>(cmp: (T, T) -> Ordering, heap: seq<T>) returns (at: nat)
    requires heap != []
    ensures at < |heap|
    ensures LawfulOn(cmp, Among(heap)) ==> forall i :: 0 <= i < |heap| ==> Le(cmp, heap[i], heap[at])
  {
    at := 0;
    for n := 1 to |heap|
      invariant at < n
      invariant LawfulOn(cmp, Among(heap)) ==> forall i :: 0 <= i < n ==> Le(cmp, heap[i], heap[at])
    {
      ghost var before := at;
      if cmp(heap[at], heap[n]) == Less {
        at := n;
      }
      WorseOf(cmp, heap, before, n);
    }
  }

  lemma WorseOf<T(!new)>(cmp: (T, T) -> Ordering, heap: seq<T>, at: nat, n: nat)
    requires at < n < |heap|
    ensures LawfulOn(cmp, Among(heap)) && (forall i :: 0 <= i < n ==> Le(cmp, heap[i], heap[at])) ==>
      var worst := if cmp(heap[at], heap[n]) == Less then n else at; forall i :: 0 <= i <= n ==> Le(cmp, heap[i], heap[worst])
  {
    assert cmp(heap[n], heap[n]) == Flip(cmp(heap[n], heap[n])) || !LawfulOn(cmp, Among(heap));
    assert cmp(heap[0], heap[0]) == Flip(cmp(heap[0], heap[0])) || !LawfulOn(cmp, Among(heap));
    assert cmp(heap[n], heap[at]) == Flip(cmp(heap[at], heap[n])) || !LawfulOn(cmp, Among(heap));
  }

  /** The heap holds the k smallest of the first `n` rows, in some order. */
  ghost predicate Held<T(!new)>(cmp: (T, T) -> Ordering, rows: seq<T>, n: nat, heap: seq<T>, k: nat)
    requires n <= |rows|
  {
    && multiset(heap) == multiset(Take(Sort(cmp, rows[..n]), k))
    && |heap| == if n < k then n else k
  }

  /** The heap after one more row. */
  function Offered<T>(cmp: (T, T) -> Ordering, heap: seq<T>, at: nat, x: T): seq<T>
    requires at < |heap|
  {
    if cmp(x, heap[at]) == Less then heap[..at] + heap[at + 1..] + [x] else heap
  }

  /** The comparison settles every pair of the rows, one way. */
  ghost predicate Settles<T(!new)>(cmp: (T, T) -> Ordering, rows: seq<T>) {
    LawfulOn(cmp, Among(rows)) && Untied(cmp, rows)
  }

  /** The heap part-way: of the right size, made of rows, and the smallest so far if the comparison settles them. */
  ghost predicate Selecting<T(!new)>(cmp: (T, T) -> Ordering, rows: seq<T>, n: nat, heap: seq<T>, k: nat)
    requires n <= |rows|
  {
    && |heap| == (if n < k then n else k)
    && (forall x | x in heap :: x in rows)
    && (Settles(cmp, rows) ==> Held(Confined(cmp, Among(rows)), rows, n, heap, k))
  }

  method Select<T(!new, ==)>(cmp: (T, T) -> Ordering, rows: seq<T>, k: nat) returns (out: seq<T>)
    ensures Settles(cmp, rows) ==> out == Take(Sort(cmp, rows), k)
  {
    hide *;
    if k == 0 {
      TakeNone(Sort(cmp, rows));
      return [];
    }
    var heap: seq<T> := [];
    SelectStarts(cmp, rows, k);
    for n := 0 to |rows|
      invariant Selecting(cmp, rows, n, heap, k)
    {
      SelectSize(cmp, rows, n, heap, k);
      if |heap| < k {
        SelectGrows(cmp, rows, n, heap, k);
        heap := heap + [rows[n]];
      } else {
        var at := Worst(cmp, heap);
        SelectOffers(cmp, rows, n, heap, at, k);
        if cmp(rows[n], heap[at]) == Less {
          heap := heap[..at] + heap[at + 1..] + [rows[n]];
        }
      }
    }
    out := Sort(cmp, heap);
    SelectEnds(cmp, rows, heap, k);
  }

  lemma TakeNone<T>(s: seq<T>)
    ensures Take(s, 0) == []
  {
  }

  lemma SelectStarts<T(!new)>(cmp: (T, T) -> Ordering, rows: seq<T>, k: nat)
    ensures Selecting(cmp, rows, 0, [], k)
  {
    HeldNone(Confined(cmp, Among(rows)), rows, k);
  }

  lemma SelectSize<T(!new)>(cmp: (T, T) -> Ordering, rows: seq<T>, n: nat, heap: seq<T>, k: nat)
    requires n <= |rows| && Selecting(cmp, rows, n, heap, k)
    ensures |heap| == if n < k then n else k
  {
  }

  lemma SelectGrows<T(!new)>(cmp: (T, T) -> Ordering, rows: seq<T>, n: nat, heap: seq<T>, k: nat)
    requires n < |rows| && n < k && Selecting(cmp, rows, n, heap, k)
    ensures Selecting(cmp, rows, n + 1, heap + [rows[n]], k)
  {
    if Settles(cmp, rows) {
      ConfinedLawful(cmp, Among(rows));
      hide Held, Confined, Lawful, LawfulOn;
      HeldGrows(Confined(cmp, Among(rows)), rows, n, heap, k);
    }
  }

  lemma SelectOffers<T(!new)>(cmp: (T, T) -> Ordering, rows: seq<T>, n: nat, heap: seq<T>, at: nat, k: nat)
    requires 0 < k <= n < |rows| && Selecting(cmp, rows, n, heap, k) && at < |heap|
    requires LawfulOn(cmp, Among(heap)) ==> forall i :: 0 <= i < |heap| ==> Le(cmp, heap[i], heap[at])
    ensures cmp(rows[n], heap[at]) == Less ==> Selecting(cmp, rows, n + 1, heap[..at] + heap[at + 1..] + [rows[n]], k)
    ensures cmp(rows[n], heap[at]) != Less ==> Selecting(cmp, rows, n + 1, heap, k)
  {
    var c := Confined(cmp, Among(rows));
    assert heap[at] in heap && Offered(c, heap, at, rows[n]) == Offered(cmp, heap, at, rows[n]);
    if Settles(cmp, rows) {
      ConfinedLawful(cmp, Among(rows));
      UntiedConfined(cmp, Among(rows), rows);
      WorstConfined(cmp, rows, heap, at);
      hide Held, Confined, Lawful, LawfulOn, Untied;
      HeldSwaps(c, rows, n, heap, at, k);
    }
  }

  lemma SelectEnds<T(!new)>(cmp: (T, T) -> Ordering, rows: seq<T>, heap: seq<T>, k: nat)
    requires Selecting(cmp, rows, |rows|, heap, k)
    ensures Settles(cmp, rows) ==> Sort(cmp, heap) == Take(Sort(cmp, rows), k)
  {
    if Settles(cmp, rows) {
      ConfinedLawful(cmp, Among(rows));
      UntiedConfined(cmp, Among(rows), rows);
      SortConfined(cmp, Among(rows), rows);
      SortConfined(cmp, Among(rows), heap);
      hide Held, Confined, Lawful, LawfulOn, Untied, Sort;
      Resorted(Confined(cmp, Among(rows)), rows, heap, k);
    }
  }

  /** The worst row of the heap is the worst for the confined comparison too. */
  lemma WorstConfined<T(!new)>(cmp: (T, T) -> Ordering, rows: seq<T>, heap: seq<T>, at: nat)
    requires LawfulOn(cmp, Among(rows)) && (forall x | x in heap :: x in rows) && at < |heap|
    requires LawfulOn(cmp, Among(heap)) ==> forall i :: 0 <= i < |heap| ==> Le(cmp, heap[i], heap[at])
    ensures forall i :: 0 <= i < |heap| ==> Le(Confined(cmp, Among(rows)), heap[i], heap[at])
  {
    assert LawfulOn(cmp, Among(heap));
    forall i | 0 <= i < |heap| ensures Le(Confined(cmp, Among(rows)), heap[i], heap[at]) {
      assert heap[i] in heap && heap[at] in heap && Le(cmp, heap[i], heap[at]);
    }
  }

  lemma HeldNone<T(!new)>(cmp: (T, T) -> Ordering, rows: seq<T>, k: nat)
    ensures Held(cmp, rows, 0, [], k)
  {
    assert rows[..0] == [];
  }

  lemma HeldGrows<T(!new)>(cmp: (T, T) -> Ordering, rows: seq<T>, n: nat, heap: seq<T>, k: nat)
    requires Lawful(cmp) && n < |rows| && n < k && Held(cmp, rows, n, heap, k)
    ensures Held(cmp, rows, n + 1, heap + [rows[n]], k)
  {
    assert rows[..n + 1] == rows[..n] + [rows[n]];
    hide Sort, Take;
    TakeRoom(cmp, rows[..n], rows[n], k);
  }

  lemma HeldSwaps<T(!new)>(cmp: (T, T) -> Ordering, rows: seq<T>, n: nat, heap: seq<T>, at: nat, k: nat)
    requires Lawful(cmp) && Untied(cmp, rows) && 0 < k <= n < |rows| && Held(cmp, rows, n, heap, k)
    requires at < |heap| && forall i :: 0 <= i < |heap| ==> Le(cmp, heap[i], heap[at])
    ensures Held(cmp, rows, n + 1, Offered(cmp, heap, at, rows[n]), k)
  {
    assert rows[..n + 1] == rows[..n] + [rows[n]];
    hide Sort, Take, Lawful, Untied, Sorted, Le;
    var top := Take(Sort(cmp, rows[..n]), k);
    TakeFull(cmp, rows[..n], rows[n], k);
    TopOrdered(cmp, rows, n, k);
    WorstIsLast(cmp, top, heap, at);
    Replaced(heap, at, top);
    if cmp(rows[n], heap[at]) == Less {
      Swapped(heap, at, top, rows[n]);
    }
  }

  /** The worst row gone and another come. */
  lemma Swapped<T>(heap: seq<T>, at: nat, top: seq<T>, x: T)
    requires at < |heap| && top != [] && multiset(heap[..at] + heap[at + 1..]) == multiset(top[..|top| - 1])
    ensures multiset(heap[..at] + heap[at + 1..] + [x]) == multiset(top[..|top| - 1]) + multiset{x}
    ensures |heap[..at] + heap[at + 1..] + [x]| == |heap|
  {
  }

  lemma TopOrdered<T(!new)>(cmp: (T, T) -> Ordering, rows: seq<T>, n: nat, k: nat)
    requires Lawful(cmp) && Untied(cmp, rows) && n <= |rows|
    ensures var top := Take(Sort(cmp, rows[..n]), k); Untied(cmp, top) && Sorted(cmp, top)
  {
    var seen := rows[..n];
    assert Untied(cmp, seen);
    UntiedSame(cmp, seen, seen);
    SortSorts(cmp, seen);
    hide Sort;
  }

  lemma Replaced<T>(heap: seq<T>, at: nat, top: seq<T>)
    requires at < |heap| && top != [] && heap[at] == top[|top| - 1] && multiset(heap) == multiset(top)
    ensures multiset(heap[..at] + heap[at + 1..]) == multiset(top[..|top| - 1])
  {
    var n := |top| - 1;
    assert heap == heap[..at] + [heap[at]] + heap[at + 1..];
    assert top == top[..n] + [top[n]];
    assert multiset(heap[..at] + heap[at + 1..]) == multiset(heap) - multiset{heap[at]};
    assert multiset(top[..n]) == multiset(top) - multiset{top[n]};
  }

  /** The heap's worst row is the last of the k smallest. */
  lemma WorstIsLast<T(!new)>(cmp: (T, T) -> Ordering, top: seq<T>, heap: seq<T>, at: nat)
    requires Lawful(cmp) && Untied(cmp, top) && Sorted(cmp, top) && multiset(heap) == multiset(top)
    requires at < |heap| && forall i :: 0 <= i < |heap| ==> Le(cmp, heap[i], heap[at])
    ensures top != [] && heap[at] == top[|top| - 1]
  {
    assert heap[at] in multiset(top);
    var n := |top| - 1;
    assert top[n] in multiset(heap);
    var i :| 0 <= i < |heap| && heap[i] == top[n];
    var j :| 0 <= j < |top| && top[j] == heap[at];
    Reflexive(cmp, top[n]);
    assert Le(cmp, top[j], top[n]);
    BothWays(cmp, top[j], top[n]);
  }

  lemma Resorted<T(!new)>(cmp: (T, T) -> Ordering, rows: seq<T>, heap: seq<T>, k: nat)
    requires Lawful(cmp) && Untied(cmp, rows) && Held(cmp, rows, |rows|, heap, k)
    ensures Sort(cmp, heap) == Take(Sort(cmp, rows), k)
  {
    assert rows[..|rows|] == rows;
    TopOrdered(cmp, rows, |rows|, k);
    SortSorts(cmp, heap);
    hide Sort, Take;
    SortedOnce(cmp, Take(Sort(cmp, rows), k), Sort(cmp, heap));
  }
}
