/** The median-time rule: a block's timestamp must exceed the median of the last eleven. */
module MedianTime {
  const WINDOW: nat := 11

  ghost predicate Ascending(s: seq<int>) {
    forall i, j :: 0 <= i < j < |s| ==> s[i] <= s[j]
  }

  function InsertSorted(x: int, s: seq<int>): (r: seq<int>)
    ensures |r| == |s| + 1
    ensures multiset(r) == multiset(s) + multiset{x}
  {
    if s == [] || x <= s[0] then [x] + s
    else
      assert s == [s[0]] + s[1..];
      [s[0]] + InsertSorted(x, s[1..])
  }

  function SortedTimes(s: seq<int>): (r: seq<int>)
    ensures |r| == |s|
    ensures multiset(r) == multiset(s)
  {
    if s == [] then []
    else
      assert s == [s[0]] + s[1..];
      InsertSorted(s[0], SortedTimes(s[1..]))
  }

  lemma {:induction false} InsertAscending(x: int, s: seq<int>)
    requires Ascending(s)
    ensures Ascending(InsertSorted(x, s))
  {
    if s != [] && x > s[0] {
      InsertAscending(x, s[1..]);
      InsertBounded(x, s[1..], s[0]);
    }
  }

  lemma {:induction false} InsertBounded(x: int, s: seq<int>, least: int)
    requires least <= x && forall i :: 0 <= i < |s| ==> least <= s[i]
    ensures forall i :: 0 <= i < |InsertSorted(x, s)| ==> least <= InsertSorted(x, s)[i]
  {
    if s != [] && x > s[0] {
      InsertBounded(x, s[1..], least);
    }
  }

  lemma {:induction false} SortedAscending(s: seq<int>)
    ensures Ascending(SortedTimes(s))
  {
    if s != [] {
      SortedAscending(s[1..]);
      InsertAscending(s[0], SortedTimes(s[1..]));
    }
  }

  function Median(window: seq<int>): int
    requires window != []
  {
    SortedTimes(window)[|window| / 2]
  }

  /** The last WINDOW timestamps, or all of them at the start of the chain. */
  function Recent(times: seq<int>): seq<int> {
    if |times| <= WINDOW then times else times[|times| - WINDOW..]
  }

  // --- Counting ---

  function CountBelow(s: seq<int>, x: int): nat {
    if s == [] then 0 else (if s[0] < x then 1 else 0) + CountBelow(s[1..], x)
  }

  lemma {:induction false} CountInsert(y: int, s: seq<int>, x: int)
    ensures CountBelow(InsertSorted(y, s), x) == (if y < x then 1 else 0) + CountBelow(s, x)
  {
    if s == [] || y <= s[0] {
      assert ([y] + s)[1..] == s;
    } else {
      CountInsert(y, s[1..], x);
      assert ([s[0]] + InsertSorted(y, s[1..]))[1..] == InsertSorted(y, s[1..]);
    }
  }

  lemma {:induction false} CountSorted(s: seq<int>, x: int)
    ensures CountBelow(SortedTimes(s), x) == CountBelow(s, x)
  {
    if s != [] {
      CountSorted(s[1..], x);
      CountInsert(s[0], SortedTimes(s[1..]), x);
    }
  }

  lemma {:induction false} CountAppend(s: seq<int>, t: int, x: int)
    ensures CountBelow(s + [t], x) == CountBelow(s, x) + if t < x then 1 else 0
  {
    if s == [] {
      assert [t][1..] == [];
    } else {
      CountAppend(s[1..], t, x);
      assert (s + [t])[1..] == s[1..] + [t];
    }
  }

  lemma {:induction false} NoneBelow(s: seq<int>, x: int)
    requires forall i :: 0 <= i < |s| ==> s[i] >= x
    ensures CountBelow(s, x) == 0
  {
    if s != [] {
      NoneBelow(s[1..], x);
    }
  }

  /** In an ascending list, entry j is at least x exactly when at most j entries are below x. */
  lemma {:induction false} EntryAtLeast(s: seq<int>, j: nat, x: int)
    requires Ascending(s) && j < |s|
    ensures s[j] >= x <==> CountBelow(s, x) <= j
  {
    if s[0] >= x {
      NoneBelow(s, x);
    } else if j > 0 {
      EntryAtLeast(s[1..], j - 1, x);
    }
  }

  /** The median as a count, which adding and dropping entries changes one at a time. */
  lemma MedianAtLeast(window: seq<int>, x: int)
    requires window != []
    ensures Median(window) >= x <==> CountBelow(window, x) <= |window| / 2
  {
    SortedAscending(window);
    CountSorted(window, x);
    EntryAtLeast(SortedTimes(window), |window| / 2, x);
  }

  lemma GrowingWindow(window: seq<int>, t: int, m: int)
    requires window != [] && t >= m && Median(window) >= m
    ensures Median(window + [t]) >= m
  {
    MedianAtLeast(window, m);
    CountAppend(window, t, m);
    MedianAtLeast(window + [t], m);
  }

  lemma SlidingWindow(window: seq<int>, t: int, m: int)
    requires window != [] && t >= m && Median(window) >= m
    ensures Median(window[1..] + [t]) >= m
  {
    MedianAtLeast(window, m);
    CountAppend(window[1..], t, m);
    MedianAtLeast(window[1..] + [t], m);
  }

  lemma RecentAppend(times: seq<int>, t: int)
    ensures Recent(times + [t]) == if |times| < WINDOW then Recent(times) + [t] else Recent(times)[1..] + [t]
  {
  }

  /** A block that passes the timestamp rule never lowers the median that the next block must exceed. */
  lemma MedianNeverFalls(times: seq<int>, t: int)
    requires times != [] && t > Median(Recent(times))
    ensures Median(Recent(times + [t])) >= Median(Recent(times))
  {
    var window, m := Recent(times), Median(Recent(times));
    RecentAppend(times, t);
    if |times| < WINDOW {
      GrowingWindow(window, t, m);
    } else {
      SlidingWindow(window, t, m);
    }
  }
}
