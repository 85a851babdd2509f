/**
 The two pure computations of the editor shell (`Sledge.Editor.Editor`): cyclic
 tab selection and the update of the most-recently-used file list.

 A tab strip is its tab count and its selected index (`-1` when nothing is
 selected). The recent-file list is a sequence of entries, each a location and a
 display order.
 */
module Editor {

  // ---------------------------------------------------------------- tabs

  /**
   `PreviousTab`: with more than one tab, select the one before; from the first tab
   (or from no selection) wrap round to the last.
   */
  function PreviousTab(count: int, selected: int): (r: int)
    ensures count <= 1 ==> r == selected
    ensures count > 1 && -1 <= selected < count ==> 0 <= r < count
    ensures count > 1 && 0 <= selected < count ==> r == (selected + count - 1) % count
    ensures count > 1 && selected <= 0 ==> r == count - 1
  {
    if count <= 1 then selected
    else
      var prev := selected - 1;
      if prev < 0 then count - 1 else prev
  }

  /**
   `NextTab`: with more than one tab, select the one after; from the last tab wrap
   round to the first. From no selection it selects the first tab.
   */
  function NextTab(count: int, selected: int): (r: int)
    ensures count <= 1 ==> r == selected
    ensures count > 1 && -1 <= selected < count ==> 0 <= r < count
    ensures count > 1 && -1 <= selected < count ==> r == (selected + 1) % count
  {
    if count <= 1 then selected
    else
      var next := selected + 1;
      if next >= count then 0 else next
  }

  /** A selection a tab strip of `count` tabs can hold when some tab is selected. */
  predicate ValidSelection(count: int, selected: int) {
    count <= 1 || 0 <= selected < count
  }

  /** Moving to the next tab and back returns to the tab selected before. */
  lemma NextThenPrevious(count: int, selected: int)
    requires ValidSelection(count, selected)
    ensures PreviousTab(count, NextTab(count, selected)) == selected
  {
  }

  /** Moving to the previous tab and forward returns to the tab selected before. */
  lemma PreviousThenNext(count: int, selected: int)
    requires ValidSelection(count, selected)
    ensures NextTab(count, PreviousTab(count, selected)) == selected
  {
  }

  /** `NextTab` applied `k` times. */
  function NextTabs(count: int, selected: int, k: nat): int
    decreases k
  {
    if k == 0 then selected else NextTab(count, NextTabs(count, selected, k - 1))
  }

  /** `PreviousTab` applied `k` times. */
  function PreviousTabs(count: int, selected: int, k: nat): int
    decreases k
  {
    if k == 0 then selected else PreviousTab(count, PreviousTabs(count, selected, k - 1))
  }

  /** Pressing "next" `k` times advances the selection by `k` round the strip. */
  lemma {:induction false} NextTabsCycle(count: int, selected: int, k: nat)
    requires count > 1 && 0 <= selected < count
    ensures NextTabs(count, selected, k) == (selected + k) % count
    decreases k
  {
    if k > 0 {
      var m: nat := k - 1;
      NextTabsCycle(count, selected, m);
      NextStep(count, selected + m);
      assert NextTabs(count, selected, k) == NextTab(count, NextTabs(count, selected, m));
    } else {
      ModUnique(selected, count, 0, selected);
    }
  }

  /** Pressing "previous" `k` times moves the selection back by `k` round the strip. */
  lemma {:induction false} PreviousTabsCycle(count: int, selected: int, k: nat)
    requires count > 1 && 0 <= selected < count
    ensures PreviousTabs(count, selected, k) == (selected - k) % count
    decreases k
  {
    if k > 0 {
      var m: nat := k - 1;
      PreviousTabsCycle(count, selected, m);
      PreviousStep(count, selected - m);
      assert PreviousTabs(count, selected, k) == PreviousTab(count, PreviousTabs(count, selected, m));
    } else {
      ModUnique(selected, count, 0, selected);
    }
  }

  /** `NextTab` from the tab at position `a` round the strip selects position `a + 1`. */
  lemma NextStep(count: int, a: int)
    requires count > 1
    ensures NextTab(count, a % count) == (a + 1) % count
  {
    ModSuccessor(a, count);
  }

  /** `PreviousTab` from the tab at position `a` round the strip selects position `a - 1`. */
  lemma PreviousStep(count: int, a: int)
    requires count > 1
    ensures PreviousTab(count, a % count) == (a - 1) % count
  {
    ModPredecessor(a, count);
  }

  /** One step forward round a cycle of length `n`. */
  lemma ModSuccessor(a: int, n: int)
    requires n > 1
    ensures (a % n + 1) % n == (a + 1) % n
  {
    var q, m := a / n, a % n;
    if m + 1 < n {
      ModUnique(a + 1, n, q, m + 1);
      ModUnique(m + 1, n, 0, m + 1);
    } else {
      ModUnique(a + 1, n, q + 1, 0);
      ModUnique(m + 1, n, 1, 0);
    }
  }

  /** One step back round a cycle of length `n`. */
  lemma ModPredecessor(a: int, n: int)
    requires n > 1
    ensures (a % n + n - 1) % n == (a - 1) % n
  {
    var q, m := a / n, a % n;
    if m > 0 {
      ModUnique(a - 1, n, q, m - 1);
      ModUnique(m + n - 1, n, 1, m - 1);
    } else {
      ModUnique(a - 1, n, q - 1, n - 1);
      ModUnique(m + n - 1, n, 0, n - 1);
    }
  }

  /** The remainder is the unique `r` in `[0, n)` with `a == q * n + r`. */
  lemma ModUnique(a: int, n: int, q: int, r: int)
    requires n > 0 && 0 <= r < n && a == q * n + r
    ensures a % n == r
  {
    var q', r' := a / n, a % n;
    assert a == q' * n + r';
    var k := q - q';
    assert k * n == q * n - q' * n;
    if k > 0 {
      MulAtLeast(k, n);
    } else if k < 0 {
      MulAtLeast(-k, n);
    }
  }

  lemma {:induction false} MulAtLeast(k: int, n: int)
    requires k >= 1 && n > 0
    ensures k * n >= n
    decreases k
  {
    if k > 1 {
      MulAtLeast(k - 1, n);
      assert k * n == (k - 1) * n + n;
    }
  }

  // -------------------------------------------------------- recent files

  /** One entry of the recent-file list: the file's location and its display position. */
  datatype RecentFile = RecentFile(location: string, order: int)

  /** The greatest number of entries the list keeps. */
  const MaxRecentFiles := 10

  /** Entries in non-decreasing display order. */
  predicate Sorted(s: seq<RecentFile>) {
    forall i, j :: 0 <= i < j < |s| ==> s[i].order <= s[j].order
  }

  /** Place `x` in front of the first entry of `s` whose order is not below its own. */
  function InsertByOrder(x: RecentFile, s: seq<RecentFile>): (r: seq<RecentFile>)
    ensures |r| == |s| + 1
    decreases |s|
  {
    if s == [] || x.order <= s[0].order then [x] + s
    else [s[0]] + InsertByOrder(x, s[1..])
  }

  /** `OrderBy(x => x.Order)`: a stable sort by display order. */
  function OrderBy(s: seq<RecentFile>): (r: seq<RecentFile>)
    ensures |r| == |s|
    decreases |s|
  {
    if s == [] then [] else InsertByOrder(s[0], OrderBy(s[1..]))
  }

  /** The entries of `s` whose order is `k`, in the order `s` holds them. */
  function WithOrder(s: seq<RecentFile>, k: int): (r: seq<RecentFile>)
    ensures forall x :: x in r <==> x in s && x.order == k
    decreases |s|
  {
    if s == [] then []
    else if s[0].order == k then [s[0]] + WithOrder(s[1..], k)
    else WithOrder(s[1..], k)
  }

  /** `Where(x => x.Location != path)`: the entries for other files, in order. */
  function WithoutLocation(s: seq<RecentFile>, path: string): (r: seq<RecentFile>)
    ensures |r| <= |s|
    ensures forall i :: 0 <= i < |r| ==> r[i].location != path
    ensures forall x :: x in r <==> x in s && x.location != path
    decreases |s|
  {
    if s == [] then []
    else if s[0].location != path then [s[0]] + WithoutLocation(s[1..], path)
    else WithoutLocation(s[1..], path)
  }

  /** `Take(n)`: the first `n` entries, or all of them when there are fewer. */
  function Take(s: seq<RecentFile>, n: nat): (r: seq<RecentFile>)
    ensures |r| == if |s| < n then |s| else n
    ensures forall i :: 0 <= i < |r| ==> r[i] == s[i]
  {
    if |s| < n then s else s[..n]
  }

  /** The loop that writes `Order = i` into the `i`-th entry. */
  function Renumber(s: seq<RecentFile>): (r: seq<RecentFile>)
    ensures |r| == |s|
    ensures forall i :: 0 <= i < |r| ==> r[i].location == s[i].location && r[i].order == i
  {
    seq(|s|, i requires 0 <= i < |s| => s[i].(order := i))
  }

  /** The entries kept from the old list: the nine earliest by order, other than `path`. */
  function Retained(recents: seq<RecentFile>, path: string): seq<RecentFile> {
    Take(WithoutLocation(OrderBy(recents), path), MaxRecentFiles - 1)
  }

  /**
   `RecentFile(path)`: the opened file goes first, followed by up to nine of the
   previous entries for other files, earliest display order first; then the list
   is renumbered from zero.
   */
  function RecentFileUpdate(recents: seq<RecentFile>, path: string): (r: seq<RecentFile>)
    ensures 1 <= |r| <= MaxRecentFiles
    ensures r[0].location == path
    ensures forall i :: 0 < i < |r| ==> r[i].location != path
    ensures forall i :: 0 <= i < |r| ==> r[i].order == i
  {
    Renumber([RecentFile(path, 0)] + Retained(recents, path))
  }

  // --------------------------------------------------- sorting properties

  lemma {:induction false} InsertMultiset(x: RecentFile, s: seq<RecentFile>)
    ensures multiset(InsertByOrder(x, s)) == multiset(s) + multiset{x}
    decreases |s|
  {
    if s != [] && x.order > s[0].order {
      InsertMultiset(x, s[1..]);
      assert s == [s[0]] + s[1..];
    }
  }

  lemma {:induction false} InsertSorted(x: RecentFile, s: seq<RecentFile>)
    requires Sorted(s)
    ensures Sorted(InsertByOrder(x, s))
    decreases |s|
  {
    if s != [] && x.order > s[0].order {
      InsertSorted(x, s[1..]);
      InsertMultiset(x, s[1..]);
      var r := InsertByOrder(x, s[1..]);
      forall j | 0 <= j < |r|
        ensures s[0].order <= r[j].order
      {
        assert r[j] in multiset(r);
        assert r[j] in multiset(s[1..]) + multiset{x};
        if r[j] != x {
          assert r[j] in s[1..];
        }
      }
    }
  }

  /** `OrderBy` returns the same entries, sorted by display order. */
  lemma {:induction false} OrderBySorts(s: seq<RecentFile>)
    ensures multiset(OrderBy(s)) == multiset(s)
    ensures Sorted(OrderBy(s))
    decreases |s|
  {
    if s != [] {
      OrderBySorts(s[1..]);
      InsertMultiset(s[0], OrderBy(s[1..]));
      InsertSorted(s[0], OrderBy(s[1..]));
      assert s == [s[0]] + s[1..];
    }
  }

  lemma {:induction false} InsertWithOrder(x: RecentFile, s: seq<RecentFile>, k: int)
    requires Sorted(s)
    ensures WithOrder(InsertByOrder(x, s), k) == if x.order == k then [x] + WithOrder(s, k) else WithOrder(s, k)
    decreases |s|
  {
    if s == [] || x.order <= s[0].order {
      assert InsertByOrder(x, s)[1..] == s;
    } else {
      InsertWithOrder(x, s[1..], k);
      assert InsertByOrder(x, s)[1..] == InsertByOrder(x, s[1..]);
      if x.order == k {
        assert s[0].order != k;
      }
    }
  }

  /**
   Stability: among entries of equal display order, `OrderBy` keeps the order the
   list held them in.
   */
  lemma {:induction false} OrderByStable(s: seq<RecentFile>, k: int)
    ensures WithOrder(OrderBy(s), k) == WithOrder(s, k)
    decreases |s|
  {
    if s != [] {
      OrderByStable(s[1..], k);
      OrderBySorts(s[1..]);
      InsertWithOrder(s[0], OrderBy(s[1..]), k);
    }
  }

  /** Sorting a list that is already sorted leaves it as it is. */
  lemma {:induction false} OrderBySorted(s: seq<RecentFile>)
    requires Sorted(s)
    ensures OrderBy(s) == s
    decreases |s|
  {
    if s != [] {
      OrderBySorted(s[1..]);
      assert s == [s[0]] + s[1..];
    }
  }

  // ------------------------------------------------ recent-file properties

  lemma {:induction false} WithoutLocationSorted(s: seq<RecentFile>, path: string)
    requires Sorted(s)
    ensures Sorted(WithoutLocation(s, path))
    decreases |s|
  {
    if s != [] {
      WithoutLocationSorted(s[1..], path);
      var r := WithoutLocation(s[1..], path);
      forall j | 0 <= j < |r|
        ensures s[0].order <= r[j].order
      {
        assert r[j] in s[1..];
      }
    }
  }

  lemma {:induction false} WithoutLocationMultiset(s: seq<RecentFile>, path: string)
    ensures multiset(WithoutLocation(s, path)) <= multiset(s)
    decreases |s|
  {
    if s != [] {
      WithoutLocationMultiset(s[1..], path);
      assert s == [s[0]] + s[1..];
    }
  }

  lemma {:induction false} InsertWithoutLocation(x: RecentFile, s: seq<RecentFile>, path: string)
    ensures |WithoutLocation(InsertByOrder(x, s), path)| == |WithoutLocation(s, path)| + (if x.location != path then 1 else 0)
    decreases |s|
  {
    if s == [] || x.order <= s[0].order {
      assert InsertByOrder(x, s)[1..] == s;
    } else {
      InsertWithoutLocation(x, s[1..], path);
      assert InsertByOrder(x, s)[1..] == InsertByOrder(x, s[1..]);
    }
  }

  /** Sorting does not change how many entries are for other files. */
  lemma {:induction false} OrderByWithoutLocation(s: seq<RecentFile>, path: string)
    ensures |WithoutLocation(OrderBy(s), path)| == |WithoutLocation(s, path)|
    decreases |s|
  {
    if s != [] {
      OrderByWithoutLocation(s[1..], path);
      InsertWithoutLocation(s[0], OrderBy(s[1..]), path);
    }
  }

  lemma {:induction false} WithOrderWithoutLocation(s: seq<RecentFile>, path: string, k: int)
    ensures WithOrder(WithoutLocation(s, path), k) == WithoutLocation(WithOrder(s, k), path)
    decreases |s|
  {
    if s != [] {
      WithOrderWithoutLocation(s[1..], path, k);
    }
  }

  lemma {:induction false} WithOrderAppend(a: seq<RecentFile>, b: seq<RecentFile>, k: int)
    ensures WithOrder(a + b, k) == WithOrder(a, k) + WithOrder(b, k)
    decreases |a|
  {
    if a == [] {
      assert a + b == b;
    } else {
      WithOrderAppend(a[1..], b, k);
      assert (a + b)[1..] == a[1..] + b;
    }
  }

  lemma WithOrderTake(s: seq<RecentFile>, n: nat, k: int)
    ensures WithOrder(Take(s, n), k) <= WithOrder(s, k)
  {
    var taken := Take(s, n);
    assert s == taken + s[|taken|..];
    WithOrderAppend(taken, s[|taken|..], k);
  }

  lemma TakeSorted(s: seq<RecentFile>, n: nat)
    requires Sorted(s)
    ensures Sorted(Take(s, n))
  {
  }

  lemma TakeMultiset(s: seq<RecentFile>, n: nat)
    ensures multiset(Take(s, n)) <= multiset(s)
  {
    var taken := Take(s, n);
    assert s == taken + s[|taken|..];
  }

  /** `Where` keeps every other-file entry as often as the list holds it, and drops every entry for `path`. */
  lemma {:induction false} WithoutLocationCounts(s: seq<RecentFile>, path: string)
    ensures forall x :: multiset(WithoutLocation(s, path))[x] == if x.location != path then multiset(s)[x] else 0
    decreases |s|
  {
    if s != [] {
      WithoutLocationCounts(s[1..], path);
      assert s == [s[0]] + s[1..];
    }
  }

  /** Filtering a permutation of a list gives a permutation of the filtered list. */
  lemma WithoutLocationPermutation(s: seq<RecentFile>, s': seq<RecentFile>, path: string)
    requires multiset(s) == multiset(s')
    ensures multiset(WithoutLocation(s, path)) == multiset(WithoutLocation(s', path))
  {
    WithoutLocationCounts(s, path);
    WithoutLocationCounts(s', path);
  }

  /** The other-file entries in display order, from which the kept ones are taken. */
  lemma SortedOthers(recents: seq<RecentFile>, path: string)
    ensures var others := WithoutLocation(OrderBy(recents), path);
      && Sorted(others)
      && multiset(others) <= multiset(recents)
      && |others| == |WithoutLocation(recents, path)|
  {
    var sorted := OrderBy(recents);
    OrderBySorts(recents);
    WithoutLocationSorted(sorted, path);
    WithoutLocationMultiset(sorted, path);
    OrderByWithoutLocation(recents, path);
  }

  /**
   What survives from the old list: entries for other files only, drawn from the old
   list, in display order, no more than nine, and as many as nine when there are.
   */
  lemma RetainedEntries(recents: seq<RecentFile>, path: string)
    ensures var kept := Retained(recents, path);
      && Sorted(kept)
      && multiset(kept) <= multiset(recents)
      && (forall i :: 0 <= i < |kept| ==> kept[i].location != path)
      && |kept| == (if |WithoutLocation(recents, path)| < MaxRecentFiles - 1 then |WithoutLocation(recents, path)| else MaxRecentFiles - 1)
  {
    var others := WithoutLocation(OrderBy(recents), path);
    SortedOthers(recents, path);
    TakeSorted(others, MaxRecentFiles - 1);
    TakeMultiset(others, MaxRecentFiles - 1);
  }

  /** With at most nine entries for other files, every one of them is kept, as often as the old list holds it. */
  lemma RetainedAll(recents: seq<RecentFile>, path: string)
    requires |WithoutLocation(recents, path)| <= MaxRecentFiles - 1
    ensures multiset(Retained(recents, path)) == multiset(WithoutLocation(recents, path))
  {
    var sorted := OrderBy(recents);
    var others := WithoutLocation(sorted, path);
    OrderByWithoutLocation(recents, path);
    assert Take(others, MaxRecentFiles - 1) == others;
    OrderBySorts(recents);
    WithoutLocationPermutation(sorted, recents, path);
  }

  /** Every other-file entry that is dropped comes no earlier than any kept one. */
  lemma RetainedEarliest(recents: seq<RecentFile>, path: string)
    ensures var kept := Retained(recents, path);
      forall x, i :: x in recents && x.location != path && x !in kept && 0 <= i < |kept| ==> kept[i].order <= x.order
  {
    var sorted := OrderBy(recents);
    var others := WithoutLocation(sorted, path);
    var kept := Retained(recents, path);
    SortedOthers(recents, path);
    OrderBySorts(recents);
    forall x, i | x in recents && x.location != path && x !in kept && 0 <= i < |kept|
      ensures kept[i].order <= x.order
    {
      assert x in multiset(sorted);
      assert x in others;
      var j :| 0 <= j < |others| && others[j] == x;
      assert others[i] == kept[i];
    }
  }

  /** Entries of equal display order are kept in their old relative order. */
  lemma RetainedStable(recents: seq<RecentFile>, path: string, k: int)
    ensures WithOrder(Retained(recents, path), k) <= WithOrder(WithoutLocation(recents, path), k)
  {
    var sorted := OrderBy(recents);
    WithOrderTake(WithoutLocation(sorted, path), MaxRecentFiles - 1, k);
    WithOrderWithoutLocation(sorted, path, k);
    OrderByStable(recents, k);
    WithOrderWithoutLocation(recents, path, k);
  }

  /** The updated list is the opened file followed by the retained entries, renumbered. */
  lemma RecentFileUpdateShape(recents: seq<RecentFile>, path: string)
    ensures var r := RecentFileUpdate(recents, path);
      && |r| == |Retained(recents, path)| + 1
      && r[0] == RecentFile(path, 0)
      && forall i :: 0 <= i < |Retained(recents, path)| ==>
        r[i + 1] == Retained(recents, path)[i].(order := i + 1)
  {
    var kept := Retained(recents, path);
    var s := [RecentFile(path, 0)] + kept;
    var r := RecentFileUpdate(recents, path);
    assert r == Renumber(s);
    forall i | 0 <= i < |kept|
      ensures r[i + 1] == kept[i].(order := i + 1)
    {
      assert s[i + 1] == kept[i];
    }
  }

  /** Opening the file that already heads the list changes nothing. */
  lemma RecentFileUpdateIdempotent(recents: seq<RecentFile>, path: string)
    ensures RecentFileUpdate(RecentFileUpdate(recents, path), path) == RecentFileUpdate(recents, path)
  {
    var r := RecentFileUpdate(recents, path);
    assert Sorted(r);
    OrderBySorted(r);
    assert WithoutLocation(r, path) == r[1..] by {
      assert r == [r[0]] + r[1..];
      WithoutLocationAll(r[1..], path);
    }
    var r' := RecentFileUpdate(r, path);
    assert |r'| == |r|;
    forall i | 0 <= i < |r|
      ensures r'[i] == r[i]
    {
      if i > 0 {
        assert r'[i].location == r[1..][i - 1].location;
      }
    }
  }

  lemma {:induction false} WithoutLocationAll(s: seq<RecentFile>, path: string)
    requires forall i :: 0 <= i < |s| ==> s[i].location != path
    ensures WithoutLocation(s, path) == s
    decreases |s|
  {
    if s != [] {
      WithoutLocationAll(s[1..], path);
      assert s == [s[0]] + s[1..];
    }
  }
}
