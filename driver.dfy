/**
 * The steps of the command-line driver between reading the archive and rendering the notes:
 * skipping the JavaScript preamble, the start- and end-month filters, and grouping by month.
 */
module Driver {
  import opened Sequences
  import opened Calendar
  import opened Tweet

  // ---------------------------------------------------------------------------
  // Preamble
  // ---------------------------------------------------------------------------

  /**
   * `trim_start_matches(|c| c != '[')`: drops the assignment in front of the JSON array. The
   * result is a suffix that is empty or starts with `[`, and no dropped character is `[`.
   */
  function TrimPreamble(s: string): (r: string)
    ensures |r| <= |s| && r == s[|s| - |r|..]
    ensures |r| == 0 || r[0] == '['
    ensures forall i :: 0 <= i < |s| - |r| ==> s[i] != '['
    decreases |s|
  {
    if |s| == 0 || s[0] == '[' then s else TrimPreamble(s[1..])
  }

  /** A text that already starts at the array is left alone, so trimming twice is trimming once. */
  lemma TrimPreambleIdempotent(s: string)
    ensures TrimPreamble(TrimPreamble(s)) == TrimPreamble(s)
  {
  }

  /** The trim removes exactly a bracket-free preamble put in front of the array. */
  lemma {:induction false} TrimPreambleOfPrefix(preamble: string, body: string)
    requires forall i :: 0 <= i < |preamble| ==> preamble[i] != '['
    requires |body| == 0 || body[0] == '['
    ensures TrimPreamble(preamble + body) == body
    decreases |preamble|
  {
    if |preamble| > 0 {
      assert (preamble + body)[1..] == preamble[1..] + body;
      TrimPreambleOfPrefix(preamble[1..], body);
    } else {
      assert preamble + body == body;
    }
  }

  /** The archive's own layout: `window.YTD.tweets.part0 = [...]`. */
  lemma TrimPreambleExample(body: string)
    requires |body| > 0 && body[0] == '['
    ensures TrimPreamble("window.YTD.tweets.part0 = " + body) == body
  {
    TrimPreambleOfPrefix("window.YTD.tweets.part0 = ", body);
  }

  // ---------------------------------------------------------------------------
  // Month bounds
  // ---------------------------------------------------------------------------

  /** The months counted from January of year 0. */
  function MonthIndex(y: int, m: int): int {
    12 * y + m - 1
  }

  /** `checked_add_months(Months::new(1))` on the first of a month: December rolls over to January. */
  function NextMonth(y: int, m: int): (r: (int, int))
    requires 1 <= m <= 12
    ensures 1 <= r.1 <= 12
    ensures MonthIndex(r.0, r.1) == MonthIndex(y, m) + 1
  {
    if m == 12 then (y + 1, 1) else (y, m + 1)
  }

  /** Distinct months have distinct indices, so `NextMonth` names the one month that follows. */
  lemma MonthIndexInjective(y1: int, m1: int, y2: int, m2: int)
    requires 1 <= m1 <= 12 && 1 <= m2 <= 12
    ensures MonthIndex(y1, m1) == MonthIndex(y2, m2) <==> y1 == y2 && m1 == m2
  {
  }

  /** A valid time is before the first instant of a month exactly when its month comes earlier. */
  lemma BeforeMonthStart(t: ValidDateTime, y: int, m: int)
    requires 1 <= m <= 12
    ensures Before(t, MonthStart(y, m)) <==> MonthIndex(t.year, t.month) < MonthIndex(y, m)
  {
  }

  // ---------------------------------------------------------------------------
  // Filters
  // ---------------------------------------------------------------------------

  /**
   * `filter_tweet_by_start_month`: the posts at or after 00:00:00 on the first of the month, in
   * order, each as often as in the input.
   */
  function FilterByStartMonth(ts: seq<Tweet>, year: int, month: int): (r: seq<Tweet>)
    requires 1 <= month <= 12
    ensures IsSubsequence(r, ts)
    ensures forall t :: t in r <==> t in ts && !Before(t.createdAt, MonthStart(year, month))
    ensures forall t :: multiset(r)[t] == if !Before(t.createdAt, MonthStart(year, month)) then multiset(ts)[t] else 0
    decreases |ts|
  {
    if |ts| == 0 then []
    else
      var rest := FilterByStartMonth(ts[1..], year, month);
      assert ts == [ts[0]] + ts[1..];
      if !Before(ts[0].createdAt, MonthStart(year, month)) then
        SubsequenceCons(ts[0], rest, ts[1..]);
        [ts[0]] + rest
      else
        SubsequenceInsert(rest, ts[1..], [ts[0]]);
        rest
  }

  /**
   * `filter_tweet_by_end_month`: the posts strictly before 00:00:00 on the first of the month
   * after the end month, in order, each as often as in the input.
   */
  function FilterByEndMonth(ts: seq<Tweet>, year: int, month: int): (r: seq<Tweet>)
    requires 1 <= month <= 12
    ensures IsSubsequence(r, ts)
    ensures forall t :: t in r <==>
      t in ts && Before(t.createdAt, MonthStart(NextMonth(year, month).0, NextMonth(year, month).1))
    ensures forall t ::
      multiset(r)[t] == (if Before(t.createdAt, MonthStart(NextMonth(year, month).0, NextMonth(year, month).1)) then multiset(ts)[t] else 0)
    decreases |ts|
  {
    if |ts| == 0 then []
    else
      var next := NextMonth(year, month);
      var rest := FilterByEndMonth(ts[1..], year, month);
      assert ts == [ts[0]] + ts[1..];
      if Before(ts[0].createdAt, MonthStart(next.0, next.1)) then
        SubsequenceCons(ts[0], rest, ts[1..]);
        [ts[0]] + rest
      else
        SubsequenceInsert(rest, ts[1..], [ts[0]]);
        rest
  }

  /** In calendar terms: the start filter keeps the posts of the start month and later months. */
  lemma StartFilterByMonth(ts: seq<Tweet>, year: int, month: int, t: Tweet)
    requires 1 <= month <= 12
    ensures t in FilterByStartMonth(ts, year, month) <==>
      t in ts && MonthIndex(t.createdAt.year, t.createdAt.month) >= MonthIndex(year, month)
  {
    BeforeMonthStart(t.createdAt, year, month);
  }

  /** In calendar terms: the end filter keeps the posts of the end month and earlier months. */
  lemma EndFilterByMonth(ts: seq<Tweet>, year: int, month: int, t: Tweet)
    requires 1 <= month <= 12
    ensures t in FilterByEndMonth(ts, year, month) <==>
      t in ts && MonthIndex(t.createdAt.year, t.createdAt.month) <= MonthIndex(year, month)
  {
    var next := NextMonth(year, month);
    BeforeMonthStart(t.createdAt, next.0, next.1);
  }

  /** The bounds of the end filter: the first and the last second of the end month are kept, the first second of the next month is not. */
  lemma EndFilterBoundary(ts: seq<Tweet>, year: int, month: int, t: Tweet)
    requires 1 <= month <= 12 && t in ts
    ensures t.createdAt == MonthStart(year, month) ==> t in FilterByEndMonth(ts, year, month)
    ensures t.createdAt == DateTime(year, month, DaysInMonth(year, month), 23, 59, 59) ==>
      t in FilterByEndMonth(ts, year, month)
    ensures var next := NextMonth(year, month);
      t.createdAt == MonthStart(next.0, next.1) ==> t !in FilterByEndMonth(ts, year, month)
  {
    EndFilterByMonth(ts, year, month, t);
  }

  /** The bounds of the start filter: its first second is kept, the last second of the month before is not. */
  lemma StartFilterBoundary(ts: seq<Tweet>, year: int, month: int, t: Tweet)
    requires 1 <= month <= 12 && t in ts
    ensures t.createdAt == MonthStart(year, month) ==> t in FilterByStartMonth(ts, year, month)
    ensures var py := if month == 1 then year - 1 else year;
      var pm := if month == 1 then 12 else month - 1;
      t.createdAt == DateTime(py, pm, DaysInMonth(py, pm), 23, 59, 59) ==> t !in FilterByStartMonth(ts, year, month)
  {
    StartFilterByMonth(ts, year, month, t);
  }

  /** The two filters commute: applying them in either order gives the same posts in the same order. */
  lemma {:induction false} FiltersCommute(ts: seq<Tweet>, sy: int, sm: int, ey: int, em: int)
    requires 1 <= sm <= 12 && 1 <= em <= 12
    ensures FilterByEndMonth(FilterByStartMonth(ts, sy, sm), ey, em) ==
            FilterByStartMonth(FilterByEndMonth(ts, ey, em), sy, sm)
    decreases |ts|
  {
    if |ts| > 0 {
      FiltersCommute(ts[1..], sy, sm, ey, em);
      FilterFront(FilterByStartMonth(ts[1..], sy, sm), ts[0], ey, em);
      FilterFront(FilterByEndMonth(ts[1..], ey, em), ts[0], sy, sm);
    }
  }

  /** How both filters treat a post put in front. */
  lemma FilterFront(rest: seq<Tweet>, t: Tweet, y: int, m: int)
    requires 1 <= m <= 12
    ensures FilterByStartMonth([t] + rest, y, m) ==
      (if !Before(t.createdAt, MonthStart(y, m)) then [t] else []) + FilterByStartMonth(rest, y, m)
    ensures FilterByEndMonth([t] + rest, y, m) ==
      (if Before(t.createdAt, MonthStart(NextMonth(y, m).0, NextMonth(y, m).1)) then [t] else []) +
      FilterByEndMonth(rest, y, m)
  {
    assert ([t] + rest)[1..] == rest;
  }

  /** A filter applied twice keeps what it kept once. */
  lemma {:induction false} StartFilterIdempotent(ts: seq<Tweet>, y: int, m: int)
    requires 1 <= m <= 12
    ensures FilterByStartMonth(FilterByStartMonth(ts, y, m), y, m) == FilterByStartMonth(ts, y, m)
    decreases |ts|
  {
    if |ts| > 0 {
      StartFilterIdempotent(ts[1..], y, m);
      FilterFront(FilterByStartMonth(ts[1..], y, m), ts[0], y, m);
    }
  }

  lemma {:induction false} EndFilterIdempotent(ts: seq<Tweet>, y: int, m: int)
    requires 1 <= m <= 12
    ensures FilterByEndMonth(FilterByEndMonth(ts, y, m), y, m) == FilterByEndMonth(ts, y, m)
    decreases |ts|
  {
    if |ts| > 0 {
      EndFilterIdempotent(ts[1..], y, m);
      FilterFront(FilterByEndMonth(ts[1..], y, m), ts[0], y, m);
    }
  }

  // ---------------------------------------------------------------------------
  // Grouping by month
  // ---------------------------------------------------------------------------

  /** `dt.year() * 100 + dt.month()`: the key of a post's month, `YYYYMM` for four-digit years. */
  function MonthKey(t: DateTime): int {
    t.year * 100 + t.month
  }

  /** The key can be read back: its quotient by 100 is the year and its remainder the month. */
  lemma MonthKeyDecodes(t: ValidDateTime)
    ensures MonthKey(t) / 100 == t.year && MonthKey(t) % 100 == t.month
  {
  }

  /** Two months share a key exactly when they are the same month. */
  lemma MonthKeyInjective(a: ValidDateTime, b: ValidDateTime)
    ensures MonthKey(a) == MonthKey(b) <==> a.year == b.year && a.month == b.month
  {
    MonthKeyDecodes(a);
    MonthKeyDecodes(b);
  }

  /** The posts whose month has key `k`, in input order. */
  function WithKey(ts: seq<Tweet>, k: int): seq<Tweet>
    decreases |ts|
  {
    if |ts| == 0 then []
    else
      var last := ts[|ts| - 1];
      WithKey(ts[..|ts| - 1], k) + (if MonthKey(last.createdAt) == k then [last] else [])
  }

  lemma WithKeySnoc(ts: seq<Tweet>, t: Tweet, k: int)
    ensures WithKey(ts + [t], k) == WithKey(ts, k) + (if MonthKey(t.createdAt) == k then [t] else [])
  {
    assert (ts + [t])[..|ts|] == ts;
  }

  /** A group is an order-preserving subsequence of the input. */
  lemma {:induction false} WithKeySubsequence(ts: seq<Tweet>, k: int)
    ensures IsSubsequence(WithKey(ts, k), ts)
    decreases |ts|
  {
    if |ts| > 0 {
      var init := ts[..|ts| - 1];
      var last := ts[|ts| - 1];
      WithKeySubsequence(init, k);
      SubsequenceRefl([last]);
      SubsequenceConcat(WithKey(init, k), init, if MonthKey(last.createdAt) == k then [last] else [], [last]);
      assert ts == init + [last];
    }
  }

  /** A group holds each post of its month exactly as often as the input does, and nothing else. */
  lemma {:induction false} WithKeyCounts(ts: seq<Tweet>, k: int, t: Tweet)
    ensures multiset(WithKey(ts, k))[t] == if MonthKey(t.createdAt) == k then multiset(ts)[t] else 0
    decreases |ts|
  {
    if |ts| > 0 {
      var init := ts[..|ts| - 1];
      WithKeyCounts(init, k, t);
      assert ts == init + [ts[|ts| - 1]];
    }
  }

  /** The keys that occur in the input. */
  ghost predicate HasKey(ts: seq<Tweet>, k: int) {
    exists i :: 0 <= i < |ts| && MonthKey(ts[i].createdAt) == k
  }

  lemma WithKeyNonEmpty(ts: seq<Tweet>, k: int)
    ensures |WithKey(ts, k)| > 0 <==> HasKey(ts, k)
  {
    if HasKey(ts, k) {
      var i :| 0 <= i < |ts| && MonthKey(ts[i].createdAt) == k;
      WithKeyCounts(ts, k, ts[i]);
      assert ts[i] in multiset(ts);
    } else if |WithKey(ts, k)| > 0 {
      var t := WithKey(ts, k)[0];
      WithKeyCounts(ts, k, t);
      assert false;
    }
  }

  /** The map the grouping loop builds. */
  ghost predicate IsGrouping(ts: seq<Tweet>, groups: map<int, seq<Tweet>>) {
    && (forall k :: k in groups <==> HasKey(ts, k))
    && (forall k :: k in groups ==> groups[k] == WithKey(ts, k))
  }

  /**
   * The `tweets_by_yyyymm` loop: each post is appended to the group of its month's key, the
   * group being created empty the first time the key is seen.
   */
  method GroupByMonth(tweets: seq<Tweet>) returns (groups: map<int, seq<Tweet>>)
    ensures IsGrouping(tweets, groups)
  {
    groups := map[];
    var i := 0;
    while i < |tweets|
      invariant 0 <= i <= |tweets|
      invariant IsGrouping(tweets[..i], groups)
    {
      var t := tweets[i];
      var key := MonthKey(t.createdAt);
      var group := if key in groups then groups[key] else [];
      ghost var before := groups;
      groups := groups[key := group + [t]];
      assert tweets[..i + 1] == tweets[..i] + [t];
      GroupingStep(tweets[..i], t, before, groups);
      i := i + 1;
    }
    assert tweets[..i] == tweets;
  }

  lemma HasKeySnoc(ts: seq<Tweet>, t: Tweet, k: int)
    ensures HasKey(ts + [t], k) <==> HasKey(ts, k) || MonthKey(t.createdAt) == k
  {
    if HasKey(ts, k) {
      var i :| 0 <= i < |ts| && MonthKey(ts[i].createdAt) == k;
      assert (ts + [t])[i] == ts[i];
    }
    if MonthKey(t.createdAt) == k {
      assert (ts + [t])[|ts|] == t;
    }
    if HasKey(ts + [t], k) {
      var i :| 0 <= i < |ts| + 1 && MonthKey((ts + [t])[i].createdAt) == k;
      if i < |ts| {
        assert (ts + [t])[i] == ts[i];
      }
    }
  }

  /** One turn of the grouping loop keeps the map a grouping of the posts seen so far. */
  lemma GroupingStep(ts: seq<Tweet>, t: Tweet, before: map<int, seq<Tweet>>, after: map<int, seq<Tweet>>)
    requires IsGrouping(ts, before)
    requires after == before[MonthKey(t.createdAt) :=
      (if MonthKey(t.createdAt) in before then before[MonthKey(t.createdAt)] else []) + [t]]
    ensures IsGrouping(ts + [t], after)
  {
    var key := MonthKey(t.createdAt);
    forall k ensures k in after <==> HasKey(ts + [t], k) {
      HasKeySnoc(ts, t, k);
    }
    forall k | k in after ensures after[k] == WithKey(ts + [t], k) {
      WithKeySnoc(ts, t, k);
      if k == key && key !in before {
        WithKeyNonEmpty(ts, key);
      }
    }
  }

  /**
   * The grouping is a partition of the input: every group is non-empty and an order-preserving
   * subsequence of the input, and each post occurs in the group of its own month as often as in
   * the input and in no other group.
   */
  lemma GroupingPartitions(ts: seq<Tweet>, groups: map<int, seq<Tweet>>, k: int, t: Tweet)
    requires IsGrouping(ts, groups)
    ensures k in groups ==> |groups[k]| > 0 && IsSubsequence(groups[k], ts)
    ensures k in groups ==> multiset(groups[k])[t] == if MonthKey(t.createdAt) == k then multiset(ts)[t] else 0
    ensures t in ts ==> MonthKey(t.createdAt) in groups && t in groups[MonthKey(t.createdAt)]
  {
    WithKeyNonEmpty(ts, k);
    WithKeySubsequence(ts, k);
    WithKeyCounts(ts, k, t);
    if t in ts {
      var key := MonthKey(t.createdAt);
      var i :| 0 <= i < |ts| && ts[i] == t;
      assert HasKey(ts, key);
      WithKeyCounts(ts, key, t);
      assert t in multiset(ts);
      assert t in multiset(groups[key]);
    }
  }

  /** No posts, no groups. */
  lemma GroupingOfNothing(groups: map<int, seq<Tweet>>)
    requires IsGrouping([], groups)
    ensures groups == map[]
  {
    assert forall k :: k !in groups;
    assert groups.Keys == {};
  }
}
