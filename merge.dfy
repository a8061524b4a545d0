/** Flattening the per-repository lists and sorting them newest first. */
module Merge {
  import opened Tags

  /** The per-repository lists joined end to end, in configuration order. */
  function Concat(lists: seq<seq<Entry>>): seq<Entry>
  {
    if lists == [] then [] else Concat(lists[..|lists| - 1]) + lists[|lists| - 1]
  }

  function TotalLength(lists: seq<seq<Entry>>): nat
  {
    if lists == [] then 0 else TotalLength(lists[..|lists| - 1]) + |lists[|lists| - 1]|
  }

  /** Joining two runs of lists is joining each and then the results. */
  lemma {:induction false} ConcatAppend(a: seq<seq<Entry>>, b: seq<seq<Entry>>)
    ensures Concat(a + b) == Concat(a) + Concat(b)
  {
    if b != [] {
      var n := |b| - 1;
      assert (a + b)[..|a + b| - 1] == a + b[..n];
      ConcatAppend(a, b[..n]);
    } else {
      assert a + b == a;
    }
  }

  /** The flattened list has one element per element of the input lists. */
  lemma {:induction false} ConcatLength(lists: seq<seq<Entry>>)
    ensures |Concat(lists)| == TotalLength(lists)
  {
    if lists != [] {
      ConcatLength(lists[..|lists| - 1]);
    }
  }

  /** The flatten loop: `entries.push(...result)` for each list in turn. */
  method Flatten(lists: seq<seq<Entry>>) returns (entries: seq<Entry>)
    ensures entries == Concat(lists)
  {
    entries := [];
    for i := 0 to |lists|
      invariant entries == Concat(lists[..i])
    {
      assert lists[..i + 1][..i] == lists[..i];
      entries := entries + lists[i];
    }
    assert lists[..|lists|] == lists;
  }

  /** The sort key. `b.date - a.date` compares milliseconds; an Invalid Date
      makes the comparator return NaN, leaving the order up to the engine;
      such a list can never be rendered, so its order is not observable and
      the key 0 stands in for it. */
  function Key(e: Entry): int
  {
    if e.date.Time? then e.date.ms else 0
  }

  /** Newest first. */
  ghost predicate SortedDesc(s: seq<Entry>)
  {
    forall i, j :: 0 <= i < j < |s| ==> Key(s[i]) >= Key(s[j])
  }

  /** The entries of `s` whose date is `d`, in their order in `s`. */
  function WithKey(s: seq<Entry>, d: int): seq<Entry>
  {
    if s == [] then []
    else WithKey(s[..|s| - 1], d) + (if Key(s[|s| - 1]) == d then [s[|s| - 1]] else [])
  }

  /** Insert `x` into a newest-first list after every entry at least as new:
      an entry met later never overtakes one of the same date. */
  function Insert(s: seq<Entry>, x: Entry): seq<Entry>
  {
    if s == [] then [x]
    else if Key(s[|s| - 1]) >= Key(x) then s + [x]
    else Insert(s[..|s| - 1], x) + [s[|s| - 1]]
  }

  /** Reference definition of `entries.sort((a, b) => b.date - a.date)`:
      a stable sort, newest first. */
  function StableSortByDate(s: seq<Entry>): seq<Entry>
  {
    if s == [] then [] else Insert(StableSortByDate(s[..|s| - 1]), s[|s| - 1])
  }

  lemma {:induction false} InsertPermutes(s: seq<Entry>, x: Entry)
    ensures multiset(Insert(s, x)) == multiset(s) + multiset{x}
  {
    if s != [] && Key(s[|s| - 1]) < Key(x) {
      var n := |s| - 1;
      InsertPermutes(s[..n], x);
      assert s == s[..n] + [s[n]];
    }
  }

  lemma {:induction false} InsertBounded(s: seq<Entry>, x: Entry, b: int)
    requires forall k :: 0 <= k < |s| ==> Key(s[k]) >= b
    requires Key(x) >= b
    ensures forall k :: 0 <= k < |Insert(s, x)| ==> Key(Insert(s, x)[k]) >= b
  {
    if s != [] && Key(s[|s| - 1]) < Key(x) {
      InsertBounded(s[..|s| - 1], x, b);
    }
  }

  lemma {:induction false} InsertSorted(s: seq<Entry>, x: Entry)
    requires SortedDesc(s)
    ensures SortedDesc(Insert(s, x))
  {
    if s != [] && Key(s[|s| - 1]) < Key(x) {
      var n := |s| - 1;
      InsertSorted(s[..n], x);
      InsertBounded(s[..n], x, Key(s[n]));
    }
  }

  lemma WithKeySnoc(s: seq<Entry>, y: Entry, d: int)
    ensures WithKey(s + [y], d) == WithKey(s, d) + (if Key(y) == d then [y] else [])
  {
    assert (s + [y])[..|s|] == s;
  }

  lemma {:induction false} InsertWithKey(s: seq<Entry>, x: Entry, d: int)
    ensures WithKey(Insert(s, x), d) == WithKey(s, d) + (if Key(x) == d then [x] else [])
  {
    if s == [] {
      WithKeySnoc([], x, d);
      assert [] + [x] == [x];
    } else if Key(s[|s| - 1]) >= Key(x) {
      WithKeySnoc(s, x, d);
    } else {
      var n := |s| - 1;
      InsertWithKey(s[..n], x, d);
      WithKeyPastOlder(s, x, d);
    }
  }

  /** The step of `InsertWithKey` where `x` moves past an older last entry. */
  lemma WithKeyPastOlder(s: seq<Entry>, x: Entry, d: int)
    requires s != [] && Key(s[|s| - 1]) < Key(x)
    requires WithKey(Insert(s[..|s| - 1], x), d)
             == WithKey(s[..|s| - 1], d) + (if Key(x) == d then [x] else [])
    ensures WithKey(Insert(s, x), d) == WithKey(s, d) + (if Key(x) == d then [x] else [])
  {
    var n := |s| - 1;
    var r := Insert(s[..n], x);
    WithKeySnoc(r, s[n], d);
    assert Insert(s, x) == r + [s[n]];
    if Key(x) == d {
      assert WithKey(s, d) == WithKey(s[..n], d) + [];
      assert WithKey(Insert(s, x), d) == WithKey(r, d) + [];
    } else {
      assert WithKey(r, d) == WithKey(s[..n], d) + [];
    }
  }

  /** The sort orders by date, newest first. */
  lemma {:induction false} StableSortSorted(s: seq<Entry>)
    ensures SortedDesc(StableSortByDate(s))
  {
    if s != [] {
      StableSortSorted(s[..|s| - 1]);
      InsertSorted(StableSortByDate(s[..|s| - 1]), s[|s| - 1]);
    }
  }

  /** The sort neither loses nor adds entries. */
  lemma {:induction false} StableSortPermutes(s: seq<Entry>)
    ensures multiset(StableSortByDate(s)) == multiset(s)
  {
    if s != [] {
      var n := |s| - 1;
      var prefix := StableSortByDate(s[..n]);
      StableSortPermutes(s[..n]);
      InsertPermutes(prefix, s[n]);
      assert StableSortByDate(s) == Insert(prefix, s[n]);
      MultisetOfSnoc(s);
    }
  }

  lemma MultisetOfSnoc(s: seq<Entry>)
    requires s != []
    ensures multiset(s) == multiset(s[..|s| - 1]) + multiset{s[|s| - 1]}
  {
    assert s == s[..|s| - 1] + [s[|s| - 1]];
  }

  /** The sort is stable: entries of one date keep their relative order. */
  lemma {:induction false} StableSortKeepsTies(s: seq<Entry>, d: int)
    ensures WithKey(StableSortByDate(s), d) == WithKey(s, d)
  {
    if s != [] {
      var n := |s| - 1;
      StableSortKeepsTies(s[..n], d);
      InsertWithKey(StableSortByDate(s[..n]), s[n], d);
    }
  }

  lemma {:induction false} WithKeyWitness(s: seq<Entry>, d: int)
    requires WithKey(s, d) != []
    ensures exists i :: 0 <= i < |s| && Key(s[i]) == d
  {
    var n := |s| - 1;
    if Key(s[n]) != d {
      WithKeyWitness(s[..n], d);
      var i :| 0 <= i < n && Key(s[..n][i]) == d;
      assert Key(s[i]) == d;
    }
  }

  /** The last entry of a newest-first list is among the oldest. */
  lemma SortedLastIsOldest(r: seq<Entry>, d: int)
    requires SortedDesc(r) && r != []
    requires WithKey(r, d) != []
    ensures Key(r[|r| - 1]) <= d
  {
    WithKeyWitness(r, d);
  }

  lemma WithKeyOfLast(r: seq<Entry>)
    requires r != []
    ensures WithKey(r, Key(r[|r| - 1])) == WithKey(r[..|r| - 1], Key(r[|r| - 1])) + [r[|r| - 1]]
  {
  }

  /** In two newest-first lists that agree on the entries of every date,
      the last (oldest) entries coincide. */
  lemma SortedSameLast(r1: seq<Entry>, r2: seq<Entry>)
    requires SortedDesc(r1) && SortedDesc(r2) && r1 != [] && r2 != []
    requires forall d :: WithKey(r1, d) == WithKey(r2, d)
    ensures r1[|r1| - 1] == r2[|r2| - 1]
  {
    var n1, n2 := |r1| - 1, |r2| - 1;
    var m1, m2 := Key(r1[n1]), Key(r2[n2]);
    WithKeyOfLast(r1);
    WithKeyOfLast(r2);
    assert WithKey(r2, m1) == WithKey(r1, m1);
    assert WithKey(r1, m2) == WithKey(r2, m2);
    SortedLastIsOldest(r2, m1);
    SortedLastIsOldest(r1, m2);
    assert m1 == m2;
    var w := WithKey(r1, m1);
    assert w[|w| - 1] == r1[n1];
    assert w == WithKey(r2, m2);
    assert w[|w| - 1] == r2[n2];
  }

  lemma DropLastKeepsAgreement(r1: seq<Entry>, r2: seq<Entry>, d: int)
    requires r1 != [] && r2 != [] && r1[|r1| - 1] == r2[|r2| - 1]
    requires WithKey(r1, d) == WithKey(r2, d)
    ensures WithKey(r1[..|r1| - 1], d) == WithKey(r2[..|r2| - 1], d)
  {
    var a, b := WithKey(r1[..|r1| - 1], d), WithKey(r2[..|r2| - 1], d);
    var t := if Key(r1[|r1| - 1]) == d then [r1[|r1| - 1]] else [];
    assert a + t == b + t;
    assert (a + t)[..|a|] == a;
    assert (b + t)[..|b|] == b;
  }

  /** Two newest-first lists that agree on the entries of every date are
      the same list. */
  lemma {:induction false} SortedUnique(r1: seq<Entry>, r2: seq<Entry>)
    requires SortedDesc(r1) && SortedDesc(r2)
    requires forall d :: WithKey(r1, d) == WithKey(r2, d)
    ensures r1 == r2
    decreases |r1|
  {
    if r1 != [] && r2 != [] {
      var n1, n2 := |r1| - 1, |r2| - 1;
      SortedSameLast(r1, r2);
      forall d ensures WithKey(r1[..n1], d) == WithKey(r2[..n2], d) {
        DropLastKeepsAgreement(r1, r2, d);
      }
      SortedUnique(r1[..n1], r2[..n2]);
      assert r1 == r1[..n1] + [r1[n1]];
      assert r2 == r2[..n2] + [r2[n2]];
    } else if r1 != [] {
      WithKeyOfLast(r1);
    } else if r2 != [] {
      WithKeyOfLast(r2);
    }
  }

  /** Any stable newest-first sort of `s` (such as the engine's) yields
      exactly `StableSortByDate(s)`. */
  lemma StableSortIsTheOnlyOne(s: seq<Entry>, r: seq<Entry>)
    requires SortedDesc(r)
    requires forall d :: WithKey(r, d) == WithKey(s, d)
    ensures r == StableSortByDate(s)
  {
    StableSortSorted(s);
    forall d ensures WithKey(r, d) == WithKey(StableSortByDate(s), d) {
      StableSortKeepsTies(s, d);
    }
    SortedUnique(r, StableSortByDate(s));
  }

  /** `entries.sort(...)` on the flattened array: an insertion sort, which
      is stable, so by `StableSortIsTheOnlyOne` it orders the entries as any
      stable sort does. */
  method SortByDate(a: array<Entry>)
    modifies a
    ensures a[..] == StableSortByDate(old(a[..]))
  {
    ghost var input := a[..];
    for i := 0 to a.Length
      invariant a[..i] == StableSortByDate(input[..i])
      invariant forall k :: i <= k < a.Length ==> a[k] == input[k]
    {
      ghost var before := a[..];
      InsertLast(a, i);
      assert input[..i + 1] == input[..i] + [before[i]];
      assert input[..i + 1][..i] == input[..i];
      assert forall k :: i + 1 <= k < a.Length ==> a[k] == a[i + 1..][k - i - 1];
    }
    assert input[..a.Length] == input;
  }

  /** `Insert` puts `x` right after the newer-or-equal prefix of `s`. */
  lemma {:induction false} InsertAt(s: seq<Entry>, x: Entry, j: nat)
    requires j <= |s|
    requires j == 0 || Key(s[j - 1]) >= Key(x)
    requires forall k :: j <= k < |s| ==> Key(s[k]) < Key(x)
    ensures Insert(s, x) == s[..j] + [x] + s[j..]
    decreases |s|
  {
    if j < |s| {
      var n := |s| - 1;
      InsertAt(s[..n], x, j);
      assert s[..n][..j] == s[..j];
      assert s[j..] == s[..n][j..] + [s[n]];
    } else {
      assert s[..j] == s;
    }
  }

  /** Once the scan stops at `j`, `x` placed there completes the insertion. */
  lemma InsertFillsGap(sorted: seq<Entry>, x: Entry, j: nat, r: seq<Entry>)
    requires j <= |sorted| && |r| == |sorted| + 1
    requires j == 0 || Key(sorted[j - 1]) >= Key(x)
    requires forall k :: j <= k < |sorted| ==> Key(sorted[k]) < Key(x)
    requires forall k :: 0 <= k < j ==> r[k] == sorted[k]
    requires r[j] == x
    requires forall k :: j < k < |r| ==> r[k] == sorted[k - 1]
    ensures r == Insert(sorted, x)
  {
    InsertAt(sorted, x, j);
    var target := sorted[..j] + [x] + sorted[j..];
    forall k | 0 <= k < |r| ensures r[k] == target[k] {
      if k < j {
        assert target[k] == sorted[k];
      } else if j < k {
        assert target[k] == sorted[k - 1];
      }
    }
  }

  /** One pass of the insertion sort: move `a[i]` left past the entries
      strictly older than it. */
  method InsertLast(a: array<Entry>, i: nat)
    requires i < a.Length
    modifies a
    ensures a[..i + 1] == Insert(old(a[..i]), old(a[i]))
    ensures a[i + 1..] == old(a[i + 1..])
  {
    var x := a[i];
    ghost var sorted := a[..i];
    var j := i;
    while j > 0 && Key(a[j - 1]) < Key(x)
      invariant 0 <= j <= i
      invariant forall k :: 0 <= k < j ==> a[k] == sorted[k]
      invariant forall k :: j < k <= i ==> a[k] == sorted[k - 1]
      invariant forall k :: i < k < a.Length ==> a[k] == old(a[k])
      invariant forall k :: j <= k < i ==> Key(sorted[k]) < Key(x)
    {
      a[j] := a[j - 1];
      j := j - 1;
    }
    a[j] := x;
    InsertFillsGap(sorted, x, j, a[..i + 1]);
    assert a[i + 1..] == old(a[i + 1..]);
  }
}
