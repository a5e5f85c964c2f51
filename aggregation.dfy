/**
  The filtering and counting that `main` does once the rows are captured:
  drop rows from animation sections, drop rows whose entry mentions one of
  five "special" keywords, group the remaining rows by year, order the groups
  by count, largest first, and report the first group as the top year.
*/
module Aggregation {
  import opened AsciiText
  import opened HeadingScan

  // ---------------------------------------------------------------------
  // Filtering
  // ---------------------------------------------------------------------

  /** The keywords of `specials_keywords`, matched as case-insensitive
      substrings. */
  const SpecialKeywords: seq<string> :=
    ["christmas special", "holiday special", "special presentation", "tv special", "television special"]

  /** The alternation of the escaped keywords, compiled with `re.I`, finds a
      match in `entry`. Every keyword contains the word `special`, so a
      dropped entry always contains it too. */
  predicate IsSpecial(entry: string)
    ensures IsSpecial(entry) ==> ContainsIgnoreCase(entry, "special")
  {
    KeywordsContainSpecial(entry);
    exists k :: 0 <= k < |SpecialKeywords| && ContainsIgnoreCase(entry, SpecialKeywords[k])
  }

  /** A case-insensitive occurrence of `w` holds one of every piece `v` of `w`. */
  lemma OccursWithin(s: string, w: string, i: int, a: int, v: string)
    requires OccursAt(s, w, i) && 0 <= a && a + |v| <= |w| && w[a..a + |v|] == v
    ensures OccursAt(s, v, i + a)
  {
    forall k | 0 <= k < |v|
      ensures ToLower(s[i + a..i + a + |v|][k]) == ToLower(v[k])
    {
      assert s[i..i + |w|][a + k] == s[i + a + k];
      assert w[a + k] == v[k];
    }
  }

  /** Where `special` sits inside each keyword. */
  lemma SpecialInKeyword(k: int) returns (a: nat)
    requires 0 <= k < |SpecialKeywords|
    ensures a + 7 <= |SpecialKeywords[k]| && SpecialKeywords[k][a..a + 7] == "special"
  {
    var w := SpecialKeywords[k];
    var pre, post;
    if k == 0 { pre, post := "christmas ", ""; }
    else if k == 1 { pre, post := "holiday ", ""; }
    else if k == 2 { pre, post := "", " presentation"; }
    else if k == 3 { pre, post := "tv ", ""; }
    else { pre, post := "television ", ""; }
    assert w == pre + "special" + post;
    a := |pre|;
    assert w[a..a + 7] == "special";
  }

  lemma KeywordsContainSpecial(entry: string)
    ensures (exists k :: 0 <= k < |SpecialKeywords| && ContainsIgnoreCase(entry, SpecialKeywords[k]))
        ==> ContainsIgnoreCase(entry, "special")
  {
    if k :| 0 <= k < |SpecialKeywords| && ContainsIgnoreCase(entry, SpecialKeywords[k]) {
      var i :| 0 <= i <= |entry| && OccursAt(entry, SpecialKeywords[k], i);
      var a := SpecialInKeyword(k);
      OccursWithin(entry, SpecialKeywords[k], i, a, "special");
    }
  }

  predicate NotAnimation(r: Row) {
    !r.inAnimationSection
  }

  predicate NotSpecial(r: Row) {
    !IsSpecial(r.entry)
  }

  /** A row survives both filters. */
  predicate Kept(r: Row) {
    NotAnimation(r) && NotSpecial(r)
  }

  /** Boolean-mask selection `df[mask]`: the rows for which `keep` holds, in
      their original order. */
  function Where(rows: seq<Row>, keep: Row -> bool): seq<Row> {
    if |rows| == 0 then []
    else (if keep(rows[0]) then [rows[0]] else []) + Where(rows[1..], keep)
  }

  /** `df_filt`: first the animation filter, then the keyword filter. Each
      row that survives both is kept as often as it occurs in `rows`; every
      other row is gone. */
  function FilterRows(rows: seq<Row>): (r: seq<Row>)
    ensures forall x :: multiset(r)[x] == if Kept(x) then multiset(rows)[x] else 0
  {
    var once := Where(rows, NotAnimation);
    WhereMembers(rows, NotAnimation);
    WhereMembers(once, NotSpecial);
    Where(once, NotSpecial)
  }

  /** `a` is `b` with some elements deleted, the rest in their order. */
  ghost predicate IsSubsequence(a: seq<Row>, b: seq<Row>)
    decreases |b|
  {
    |a| == 0 ||
    (|b| > 0 && ((a[0] == b[0] && IsSubsequence(a[1..], b[1..])) || IsSubsequence(a, b[1..])))
  }

  /** A mask keeps exactly the rows it accepts, each as often as it occurs. */
  lemma {:induction false} WhereMembers(rows: seq<Row>, keep: Row -> bool)
    ensures forall x :: x in Where(rows, keep) <==> x in rows && keep(x)
    ensures forall x :: multiset(Where(rows, keep))[x] == if keep(x) then multiset(rows)[x] else 0
  {
    if |rows| > 0 {
      WhereMembers(rows[1..], keep);
      assert rows == [rows[0]] + rows[1..];
    }
  }

  /** A mask preserves order: its result is a subsequence of its input. */
  lemma {:induction false} WhereIsSubsequence(rows: seq<Row>, keep: Row -> bool)
    ensures IsSubsequence(Where(rows, keep), rows)
  {
    if |rows| > 0 {
      WhereIsSubsequence(rows[1..], keep);
      var w := Where(rows, keep);
      if keep(rows[0]) {
        assert w[0] == rows[0] && w[1..] == Where(rows[1..], keep);
      } else {
        assert w == Where(rows[1..], keep);
      }
    }
  }

  /** A subsequence is never longer. */
  lemma {:induction false} SubsequenceNotLonger(a: seq<Row>, b: seq<Row>)
    requires IsSubsequence(a, b)
    ensures |a| <= |b|
    decreases |b|
  {
    if |a| > 0 {
      if a[0] == b[0] && IsSubsequence(a[1..], b[1..]) {
        SubsequenceNotLonger(a[1..], b[1..]);
      } else {
        SubsequenceNotLonger(a, b[1..]);
      }
    }
  }

  /** Subsequences compose. */
  lemma {:induction false} SubsequenceTransitive(a: seq<Row>, b: seq<Row>, c: seq<Row>)
    requires IsSubsequence(a, b) && IsSubsequence(b, c)
    ensures IsSubsequence(a, c)
    decreases |c|
  {
    if |a| > 0 {
      SubsequenceNotLonger(a, b);
      if b[0] == c[0] && IsSubsequence(b[1..], c[1..]) {
        if a[0] == b[0] && IsSubsequence(a[1..], b[1..]) {
          SubsequenceTransitive(a[1..], b[1..], c[1..]);
        } else {
          SubsequenceTransitive(a, b[1..], c[1..]);
        }
      } else {
        SubsequenceTransitive(a, b, c[1..]);
      }
    }
  }

  /** The filtered rows are exactly the rows outside animation sections whose
      entry mentions no keyword, in their original order, and there are no
      more of them than rows. */
  lemma FilterRowsSpec(rows: seq<Row>)
    ensures forall x :: x in FilterRows(rows) <==> x in rows && Kept(x)
    ensures IsSubsequence(FilterRows(rows), rows)
    ensures |FilterRows(rows)| <= |rows|
  {
    var once := Where(rows, NotAnimation);
    WhereMembers(rows, NotAnimation);
    WhereMembers(once, NotSpecial);
    WhereIsSubsequence(rows, NotAnimation);
    WhereIsSubsequence(once, NotSpecial);
    SubsequenceTransitive(FilterRows(rows), once, rows);
    SubsequenceNotLonger(FilterRows(rows), rows);
  }

  // ---------------------------------------------------------------------
  // Counting by year
  // ---------------------------------------------------------------------

  /** One entry of the `groupby("year").size()` series. */
  datatype YearCount = YearCount(year: int, count: nat)

  /** How many rows carry year `y`. */
  function Occurrences(rows: seq<Row>, y: int): nat {
    if |rows| == 0 then 0
    else (if rows[0].year == y then 1 else 0) + Occurrences(rows[1..], y)
  }

  /** The count a series gives year `y`, 0 when `y` is not in its index. */
  function CountFor(g: seq<YearCount>, y: int): nat {
    if |g| == 0 then 0
    else if g[0].year == y then g[0].count
    else CountFor(g[1..], y)
  }

  function SumCounts(g: seq<YearCount>): nat {
    if |g| == 0 then 0 else g[0].count + SumCounts(g[1..])
  }

  ghost predicate YearsAscending(g: seq<YearCount>) {
    forall i, j :: 0 <= i < j < |g| ==> g[i].year < g[j].year
  }

  ghost predicate YearsDistinct(g: seq<YearCount>) {
    forall i, j :: 0 <= i < j < |g| ==> g[i].year != g[j].year
  }

  ghost predicate CountsPositive(g: seq<YearCount>) {
    forall i :: 0 <= i < |g| ==> g[i].count > 0
  }

  /** A year no entry carries has count 0. */
  lemma {:induction false} CountForAbsent(g: seq<YearCount>, y: int)
    requires forall i :: 0 <= i < |g| ==> g[i].year != y
    ensures CountFor(g, y) == 0
  {
    if |g| > 0 {
      CountForAbsent(g[1..], y);
    }
  }

  /** Counts one more row of year `y` into a series ordered by year. */
  function AddOne(g: seq<YearCount>, y: int): (r: seq<YearCount>)
    requires YearsAscending(g)
    ensures YearsAscending(r)
    ensures |r| > 0 && r[0].year == (if |g| > 0 && g[0].year < y then g[0].year else y)
    ensures CountsPositive(g) ==> CountsPositive(r)
  {
    if |g| == 0 || y < g[0].year then
      var r := [YearCount(y, 1)] + g;
      PrependAscending(YearCount(y, 1), g);
      assert forall i :: 0 < i < |r| ==> r[i] == g[i - 1];
      r
    else if y == g[0].year then
      var r := [YearCount(y, g[0].count + 1)] + g[1..];
      assert YearsAscending(g[1..]);
      PrependAscending(YearCount(y, g[0].count + 1), g[1..]);
      assert forall i :: 0 < i < |r| ==> r[i] == g[i];
      r
    else
      assert YearsAscending(g[1..]);
      var rest := AddOne(g[1..], y);
      var r := [g[0]] + rest;
      PrependAscending(g[0], rest);
      assert CountsPositive(g) ==> CountsPositive(g[1..]) by {
        assert forall i :: 0 <= i < |g[1..]| ==> g[1..][i] == g[i + 1];
      }
      assert forall i :: 0 < i < |r| ==> r[i] == rest[i - 1];
      r
  }

  /** Counting one more row of year `y` adds one to the count of `y` and
      leaves every other year's count alone. */
  lemma {:induction false} AddOneCounts(g: seq<YearCount>, y: int)
    requires YearsAscending(g)
    ensures forall y' :: CountFor(AddOne(g, y), y') == CountFor(g, y') + (if y' == y then 1 else 0)
  {
    var r := AddOne(g, y);
    if |g| == 0 || y < g[0].year {
      assert r[1..] == g;
      CountForAbsent(g, y);
    } else if y == g[0].year {
      assert r[1..] == g[1..];
    } else {
      assert YearsAscending(g[1..]);
      AddOneCounts(g[1..], y);
      assert r[1..] == AddOne(g[1..], y);
    }
  }

  /** Counting one more row adds one to the total. */
  lemma {:induction false} AddOneSum(g: seq<YearCount>, y: int)
    requires YearsAscending(g)
    ensures SumCounts(AddOne(g, y)) == SumCounts(g) + 1
  {
    var r := AddOne(g, y);
    if |g| == 0 || y < g[0].year {
      assert r[1..] == g;
    } else if y == g[0].year {
      assert r[1..] == g[1..];
    } else {
      assert YearsAscending(g[1..]);
      AddOneSum(g[1..], y);
      assert r[1..] == AddOne(g[1..], y);
    }
  }

  /** An entry whose year is below the first year of an ascending series
      can go in front of it. */
  lemma PrependAscending(x: YearCount, g: seq<YearCount>)
    requires YearsAscending(g)
    requires |g| > 0 ==> x.year < g[0].year
    ensures YearsAscending([x] + g)
  {
    var r := [x] + g;
    forall i, j | 0 <= i < j < |r|
      ensures r[i].year < r[j].year
    {
      assert r[j] == g[j - 1];
      if i > 0 {
        assert r[i] == g[i - 1];
      }
    }
  }

  /** `groupby("year").size()`: one entry per year present, ordered by year,
      counting the rows of that year. */
  function GroupSizes(rows: seq<Row>): (g: seq<YearCount>)
    ensures YearsAscending(g) && CountsPositive(g)
    ensures forall y :: CountFor(g, y) == Occurrences(rows, y)
    ensures SumCounts(g) == |rows|
  {
    if |rows| == 0 then []
    else
      var g := GroupSizes(rows[1..]);
      AddOneCounts(g, rows[0].year);
      AddOneSum(g, rows[0].year);
      AddOne(g, rows[0].year)
  }

  /** In a series ordered by year with positive counts, an entry `(y, c)`
      is present exactly when `c` is the count of `y` and is positive. */
  lemma {:induction false} EntryIffCount(g: seq<YearCount>, y: int, c: nat)
    requires YearsAscending(g) && CountsPositive(g)
    ensures YearCount(y, c) in g <==> 0 < c == CountFor(g, y)
  {
    if |g| > 0 {
      EntryIffCount(g[1..], y, c);
      assert g == [g[0]] + g[1..];
      if g[0].year == y {
        assert forall e :: e in g[1..] ==> e.year != y;
      }
    }
  }

  ghost predicate CountsNonIncreasing(s: seq<YearCount>) {
    forall i, j :: 0 <= i < j < |s| ==> s[i].count >= s[j].count
  }

  /** Inserts `e` into a series ordered by count, largest first, ahead of the
      entries with the same count. */
  function InsertByCount(s: seq<YearCount>, e: YearCount): (r: seq<YearCount>)
    requires CountsNonIncreasing(s)
    ensures CountsNonIncreasing(r)
    ensures multiset(r) == multiset(s) + multiset{e}
  {
    if |s| == 0 || e.count >= s[0].count then
      assert forall i :: 0 < i < |s| ==> s[0].count >= s[i].count;
      PrependNonIncreasing(e, s);
      [e] + s
    else
      var rest := InsertByCount(s[1..], e);
      assert s == [s[0]] + s[1..];
      InsertedFrom(rest, s[1..], e);
      forall i | 0 <= i < |rest|
        ensures rest[i].count <= s[0].count
      {
        if rest[i] != e {
          var k :| 0 <= k < |s[1..]| && s[1..][k] == rest[i];
          assert s[k + 1] == rest[i];
        }
      }
      PrependNonIncreasing(s[0], rest);
      [s[0]] + rest
  }

  /** An entry whose count is at least every count of a non-increasing
      series can go in front of it. */
  lemma PrependNonIncreasing(x: YearCount, s: seq<YearCount>)
    requires CountsNonIncreasing(s)
    requires forall i :: 0 <= i < |s| ==> s[i].count <= x.count
    ensures CountsNonIncreasing([x] + s)
  {
    var r := [x] + s;
    forall i, j | 0 <= i < j < |r|
      ensures r[i].count >= r[j].count
    {
      assert r[j] == s[j - 1];
      if i > 0 {
        assert r[i] == s[i - 1];
      }
    }
  }

  /** What an insertion returns holds the old entries and the new one only. */
  lemma InsertedFrom(r: seq<YearCount>, s: seq<YearCount>, e: YearCount)
    requires multiset(r) == multiset(s) + multiset{e}
    ensures forall i :: 0 <= i < |r| ==> r[i] in s || r[i] == e
  {
    forall i | 0 <= i < |r|
      ensures r[i] in s || r[i] == e
    {
      assert r[i] in multiset(r);
    }
  }

  /** Insertion adds the inserted count to the total. */
  lemma {:induction false} InsertByCountSum(s: seq<YearCount>, e: YearCount)
    requires CountsNonIncreasing(s)
    ensures SumCounts(InsertByCount(s, e)) == SumCounts(s) + e.count
  {
    if |s| > 0 && e.count < s[0].count {
      InsertByCountSum(s[1..], e);
      var r := InsertByCount(s, e);
      assert r[1..] == InsertByCount(s[1..], e);
    } else {
      assert ([e] + s)[1..] == s;
    }
  }

  /** Insertion of a year not yet present keeps the years distinct. */
  lemma {:induction false} InsertByCountDistinct(s: seq<YearCount>, e: YearCount)
    requires CountsNonIncreasing(s) && YearsDistinct(s)
    requires forall x :: x in s ==> x.year != e.year
    ensures YearsDistinct(InsertByCount(s, e))
  {
    var r := InsertByCount(s, e);
    if |s| > 0 && e.count < s[0].count {
      var rest := InsertByCount(s[1..], e);
      InsertByCountDistinct(s[1..], e);
      InsertedFrom(rest, s[1..], e);
      assert r == [s[0]] + rest;
      forall j | 0 < j < |r|
        ensures r[0].year != r[j].year
      {
        assert r[j] == rest[j - 1];
        if rest[j - 1] != e {
          var k :| 0 <= k < |s[1..]| && s[1..][k] == rest[j - 1];
          assert s[k + 1] == rest[j - 1];
        }
      }
    } else {
      assert r == [e] + s;
      forall j | 0 < j < |r|
        ensures r[0].year != r[j].year
      {
        assert r[j] == s[j - 1];
      }
    }
  }

  /** `sort_values(ascending=False)`: the same entries, ordered by count,
      largest first. Ties keep their incoming order here; the pandas sort
      promises no order among ties, and nothing below depends on it. */
  function SortByCountDesc(s: seq<YearCount>): (r: seq<YearCount>)
    ensures CountsNonIncreasing(r)
    ensures multiset(r) == multiset(s)
    ensures SumCounts(r) == SumCounts(s)
  {
    if |s| == 0 then []
    else
      var rest := SortByCountDesc(s[1..]);
      assert s == [s[0]] + s[1..];
      InsertByCountSum(rest, s[0]);
      InsertByCount(rest, s[0])
  }

  /** Sorting a series whose years are distinct keeps them distinct. */
  lemma {:induction false} SortByCountDescDistinct(s: seq<YearCount>)
    requires YearsDistinct(s)
    ensures YearsDistinct(SortByCountDesc(s))
  {
    if |s| > 0 {
      var rest := SortByCountDesc(s[1..]);
      TailYearsDistinct(s);
      SortByCountDescDistinct(s[1..]);
      HeadYearNotInTail(s, rest);
      InsertByCountDistinct(rest, s[0]);
    }
  }

  lemma TailYearsDistinct(s: seq<YearCount>)
    requires |s| > 0 && YearsDistinct(s)
    ensures YearsDistinct(s[1..])
  {
    forall i, j | 0 <= i < j < |s[1..]|
      ensures s[1..][i].year != s[1..][j].year
    {
      assert s[1..][i] == s[i + 1] && s[1..][j] == s[j + 1];
    }
  }

  /** The first year of a series with distinct years occurs nowhere in any
      rearrangement of the rest. */
  lemma HeadYearNotInTail(s: seq<YearCount>, rest: seq<YearCount>)
    requires |s| > 0 && YearsDistinct(s) && multiset(rest) == multiset(s[1..])
    ensures forall x :: x in rest ==> x.year != s[0].year
  {
    forall x | x in rest
      ensures x.year != s[0].year
    {
      assert x in multiset(rest);
      assert x in s[1..];
      var k :| 0 <= k < |s[1..]| && s[1..][k] == x;
      assert s[k + 1] == x;
    }
  }

  /** `df_filt.groupby("year").size().sort_values(ascending=False)`: one
      entry per year that occurs in `rows`, with the number of rows of that
      year, largest count first; the counts add up to the number of rows. */
  function CountByYear(rows: seq<Row>): (counts: seq<YearCount>)
    ensures CountsNonIncreasing(counts) && YearsDistinct(counts)
    ensures forall y, c :: YearCount(y, c) in counts <==> 0 < c == Occurrences(rows, y)
    ensures SumCounts(counts) == |rows|
  {
    var g := GroupSizes(rows);
    var counts := SortByCountDesc(g);
    SortByCountDescDistinct(g);
    assert forall y, c :: YearCount(y, c) in counts <==> YearCount(y, c) in g by {
      forall y, c ensures YearCount(y, c) in counts <==> YearCount(y, c) in g {
        assert YearCount(y, c) in counts <==> YearCount(y, c) in multiset(counts);
      }
    }
    assert forall y, c :: YearCount(y, c) in g <==> 0 < c == Occurrences(rows, y) by {
      forall y, c ensures YearCount(y, c) in g <==> 0 < c == Occurrences(rows, y) {
        EntryIffCount(g, y, c);
      }
    }
    counts
  }

  // ---------------------------------------------------------------------
  // The outcome of main after extraction
  // ---------------------------------------------------------------------

  /** The filtered rows, the ordered counts, and the top year with its count. */
  datatype Summary = Summary(filtered: seq<Row>, counts: seq<YearCount>, topYear: int, topCount: nat)

  /** How `main` ends after the extraction pass: the early return on an empty
      table, the `IndexError` of `counts.index[0]` when every row was filtered
      out, or the counted result. */
  datatype Outcome = NoRowsCaptured | IndexError(filtered: seq<Row>) | Counted(summary: Summary)

  /** The three endings: no rows at all; rows, but none survives the
      filters; otherwise a result over the filtered rows, whose top year and
      count are the first entry of the ordered counts. */
  function Summarize(rows: seq<Row>): (r: Outcome)
    ensures r.NoRowsCaptured? <==> |rows| == 0
    ensures r.IndexError? <==> |rows| > 0 && forall x :: x in rows ==> !Kept(x)
    ensures r.IndexError? ==> r.filtered == []
    ensures r.Counted? ==>
      r.summary.filtered == FilterRows(rows) && r.summary.counts == CountByYear(r.summary.filtered) &&
      |r.summary.counts| > 0 && r.summary.counts[0] == YearCount(r.summary.topYear, r.summary.topCount)
  {
    if |rows| == 0 then NoRowsCaptured
    else
      var filtered := FilterRows(rows);
      FilterRowsSpec(rows);
      var counts := CountByYear(filtered);
      if |counts| == 0 then IndexError(filtered)
      else
        assert counts[0] in counts;
        assert SumCounts(counts) >= counts[0].count > 0;
        assert filtered[0] in rows && Kept(filtered[0]);
        Counted(Summary(filtered, counts, counts[0].year, counts[0].count))
  }

  /** The top year is a year with the largest count: its count is the number
      of filtered rows of that year, and no year has more. */
  lemma TopYearIsMostFrequent(rows: seq<Row>)
    requires Summarize(rows).Counted?
    ensures var s := Summarize(rows).summary;
      0 < s.topCount == Occurrences(s.filtered, s.topYear) &&
      forall y :: Occurrences(s.filtered, y) <= s.topCount
  {
    var s := Summarize(rows).summary;
    assert s.counts[0] in s.counts;
    forall y
      ensures Occurrences(s.filtered, y) <= s.topCount
    {
      var c := Occurrences(s.filtered, y);
      if c > 0 {
        assert YearCount(y, c) in s.counts;
        var i :| 0 <= i < |s.counts| && s.counts[i] == YearCount(y, c);
      }
    }
  }
}
