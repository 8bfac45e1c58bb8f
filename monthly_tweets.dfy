/**
 * The input of one monthly note: the hour-of-day activity histogram, the formatted and
 * time-ordered posts, and the identifiers derived from the month's earliest post.
 */
module MonthlyTweets {
  import opened Decimal
  import opened Calendar
  import opened Tweet
  import opened Formatter

  // ---------------------------------------------------------------------------
  // Activity statistics
  // ---------------------------------------------------------------------------

  /** `TweetCountByHour`: the posts, re-shares and replies created in one hour of the day. */
  datatype HourCount = HourCount(hour: nat, tweetCount: nat, retweetCount: nat, replyCount: nat)

  /** `ActivityStats`: totals and the 24 hourly buckets. */
  datatype ActivityStats = ActivityStats(
    tweetCount: nat, retweetCount: nat, replyCount: nat, byHour: seq<HourCount>)

  /** `TweetCountByHour::new`: an empty bucket for `hour`. */
  function NewHourCount(hour: nat): (c: HourCount)
    ensures c.hour == hour && c.tweetCount == 0 && c.retweetCount == 0 && c.replyCount == 0
  {
    HourCount(hour, 0, 0, 0)
  }

  /** The three things that are counted. */
  datatype Kind = Posts | Retweets | Replies

  predicate Counts(t: Tweet, k: Kind) {
    match k
    case Posts => true
    case Retweets => IsRetweet(t)
    case Replies => t.isReply
  }

  /** The bucket's counter for kind `k`. */
  function Field(c: HourCount, k: Kind): nat {
    match k
    case Posts => c.tweetCount
    case Retweets => c.retweetCount
    case Replies => c.replyCount
  }

  /** Number of posts of kind `k` (`filter(..).count()`). */
  function KindCount(ts: seq<Tweet>, k: Kind): nat
    decreases |ts|
  {
    if |ts| == 0 then 0
    else KindCount(ts[..|ts| - 1], k) + (if Counts(ts[|ts| - 1], k) then 1 else 0)
  }

  /** Number of posts of kind `k` created in hour `h` of the day. */
  function Tally(ts: seq<Tweet>, h: int, k: Kind): nat
    decreases |ts|
  {
    if |ts| == 0 then 0
    else
      var t := ts[|ts| - 1];
      Tally(ts[..|ts| - 1], h, k) + (if t.createdAt.hour == h && Counts(t, k) then 1 else 0)
  }

  function HourTally(ts: seq<Tweet>, h: nat): HourCount {
    HourCount(h, Tally(ts, h, Posts), Tally(ts, h, Retweets), Tally(ts, h, Replies))
  }

  /** What `generate_activity_stats` promises: totals and, for every hour, the posts of that hour. */
  function StatsOf(ts: seq<Tweet>): ActivityStats {
    ActivityStats(|ts|, KindCount(ts, Retweets), KindCount(ts, Replies), seq(24, (h: nat) => HourTally(ts, h)))
  }

  /** One more post changes only the counters of its own hour, and those by its kinds. */
  lemma TallyStep(ts: seq<Tweet>, t: Tweet, h: int, k: Kind)
    ensures Tally(ts + [t], h, k) == Tally(ts, h, k) + (if t.createdAt.hour == h && Counts(t, k) then 1 else 0)
    ensures KindCount(ts + [t], k) == KindCount(ts, k) + (if Counts(t, k) then 1 else 0)
  {
    assert (ts + [t])[..|ts|] == ts;
  }

  /** Every post is counted among the posts. */
  lemma {:induction false} PostsAreAll(ts: seq<Tweet>)
    ensures KindCount(ts, Posts) == |ts|
    decreases |ts|
  {
    if |ts| > 0 {
      PostsAreAll(ts[..|ts| - 1]);
    }
  }

  /** Sum of the first `n` buckets' counters of kind `k`. */
  function BucketSum(bs: seq<HourCount>, k: Kind): nat
    decreases |bs|
  {
    if |bs| == 0 then 0 else BucketSum(bs[..|bs| - 1], k) + Field(bs[|bs| - 1], k)
  }

  /** Sum over the hours `0 .. n-1` of the tallies of kind `k`. */
  function HourSum(ts: seq<Tweet>, k: Kind, n: nat): nat
    decreases n
  {
    if n == 0 then 0 else HourSum(ts, k, n - 1) + Tally(ts, n - 1, k)
  }

  lemma {:induction false} HourSumStep(ts: seq<Tweet>, t: Tweet, k: Kind, n: nat)
    ensures HourSum(ts + [t], k, n) ==
      HourSum(ts, k, n) + (if 0 <= t.createdAt.hour < n && Counts(t, k) then 1 else 0)
    decreases n
  {
    if n > 0 {
      HourSumStep(ts, t, k, n - 1);
      TallyStep(ts, t, n - 1, k);
    }
  }

  lemma {:induction false} HourSumEmpty(ts: seq<Tweet>, k: Kind, n: nat)
    requires |ts| == 0
    ensures HourSum(ts, k, n) == 0
    decreases n
  {
    if n > 0 {
      HourSumEmpty(ts, k, n - 1);
    }
  }

  /** Every post falls in exactly one of the 24 hours, so the hourly tallies add up to the total. */
  lemma {:induction false} HourSumTotal(ts: seq<Tweet>, k: Kind)
    ensures HourSum(ts, k, 24) == KindCount(ts, k)
    decreases |ts|
  {
    if |ts| > 0 {
      var init := ts[..|ts| - 1];
      var t := ts[|ts| - 1];
      assert ts == init + [t];
      HourSumTotal(init, k);
      HourSumStep(init, t, k, 24);
      TallyStep(init, t, 0, k);
    } else {
      HourSumEmpty(ts, k, 24);
    }
  }

  lemma {:induction false} BucketSumOfTallies(ts: seq<Tweet>, k: Kind, n: nat)
    requires n <= 24
    ensures BucketSum(StatsOf(ts).byHour[..n], k) == HourSum(ts, k, n)
    decreases n
  {
    if n > 0 {
      var bs := StatsOf(ts).byHour;
      BucketSumOfTallies(ts, k, n - 1);
      assert bs[..n][..n - 1] == bs[..n - 1];
      assert Field(bs[n - 1], k) == Tally(ts, n - 1, k) by {
        match k
        case Posts =>
        case Retweets =>
        case Replies =>
      }
    }
  }

  /**
   * The totals are the number of posts, re-shares and replies, and each total is the sum of
   * the matching counter over the 24 buckets; bucket `h` is for hour `h`.
   */
  lemma StatsConsistent(ts: seq<Tweet>)
    ensures |StatsOf(ts).byHour| == 24
    ensures forall h :: 0 <= h < 24 ==> StatsOf(ts).byHour[h].hour == h
    ensures StatsOf(ts).tweetCount == KindCount(ts, Posts) == BucketSum(StatsOf(ts).byHour, Posts)
    ensures StatsOf(ts).retweetCount == BucketSum(StatsOf(ts).byHour, Retweets)
    ensures StatsOf(ts).replyCount == BucketSum(StatsOf(ts).byHour, Replies)
  {
    var bs := StatsOf(ts).byHour;
    assert bs[..24] == bs;
    PostsAreAll(ts);
    BucketSumOfTallies(ts, Posts, 24);
    BucketSumOfTallies(ts, Retweets, 24);
    BucketSumOfTallies(ts, Replies, 24);
    HourSumTotal(ts, Posts);
    HourSumTotal(ts, Retweets);
    HourSumTotal(ts, Replies);
  }

  /** No posts, all counters zero. */
  lemma StatsOfNothing()
    ensures StatsOf([]).tweetCount == 0 && StatsOf([]).retweetCount == 0 && StatsOf([]).replyCount == 0
    ensures forall h :: 0 <= h < 24 ==> StatsOf([]).byHour[h] == NewHourCount(h)
  {
  }

  /** A post that is both a re-share and a reply raises both sub-counters of its hour. */
  lemma RetweetReplyCountsTwice(ts: seq<Tweet>, t: Tweet)
    requires IsRetweet(t) && t.isReply
    ensures var h := t.createdAt.hour;
      && StatsOf(ts + [t]).byHour[h].tweetCount == StatsOf(ts).byHour[h].tweetCount + 1
      && StatsOf(ts + [t]).byHour[h].retweetCount == StatsOf(ts).byHour[h].retweetCount + 1
      && StatsOf(ts + [t]).byHour[h].replyCount == StatsOf(ts).byHour[h].replyCount + 1
  {
    var h := t.createdAt.hour;
    TallyStep(ts, t, h, Posts);
    TallyStep(ts, t, h, Retweets);
    TallyStep(ts, t, h, Replies);
  }

  /** Adding a post leaves the buckets of every other hour as they were. */
  lemma OtherHoursUnchanged(ts: seq<Tweet>, t: Tweet, h: nat)
    requires h < 24 && h != t.createdAt.hour
    ensures StatsOf(ts + [t]).byHour[h] == StatsOf(ts).byHour[h]
  {
    TallyStep(ts, t, h, Posts);
    TallyStep(ts, t, h, Retweets);
    TallyStep(ts, t, h, Replies);
  }

  /** The statistics of the source's test: posts at 00:12, 02:12 (a re-share) and 23:12 (a reply). */
  lemma StatsExample(t1: Tweet, t2: Tweet, t3: Tweet)
    requires t1.createdAt.hour == 0 && t1.fullText == "tweet1" && !t1.isReply
    requires t2.createdAt.hour == 2 && t2.fullText == "RT @hoge: tweet2" && !t2.isReply
    requires t3.createdAt.hour == 23 && t3.fullText == "@hoge tweet3" && t3.isReply
    ensures var st := StatsOf([t1, t2, t3]);
      && st.tweetCount == 3 && st.retweetCount == 1 && st.replyCount == 1
      && st.byHour[0] == HourCount(0, 1, 0, 0)
      && st.byHour[2] == HourCount(2, 1, 1, 0)
      && st.byHour[23] == HourCount(23, 1, 0, 1)
      && forall h :: 0 <= h < 24 && h != 0 && h != 2 && h != 23 ==> st.byHour[h] == NewHourCount(h)
  {
    assert !IsRetweet(t1) && IsRetweet(t2) && !IsRetweet(t3);
    var st := StatsOf([t1, t2, t3]);
    forall h | 0 <= h < 24
      ensures st.byHour[h] == HourCount(h,
        (if h == 0 then 1 else 0) + (if h == 2 then 1 else 0) + (if h == 23 then 1 else 0),
        if h == 2 then 1 else 0,
        if h == 23 then 1 else 0)
    {
      TallyOfThree(t1, t2, t3, h, Posts);
      TallyOfThree(t1, t2, t3, h, Retweets);
      TallyOfThree(t1, t2, t3, h, Replies);
    }
    TallyOfThree(t1, t2, t3, 0, Posts);
    TallyOfThree(t1, t2, t3, 0, Retweets);
    TallyOfThree(t1, t2, t3, 0, Replies);
  }

  lemma TallyOfThree(t1: Tweet, t2: Tweet, t3: Tweet, h: int, k: Kind)
    ensures Tally([t1, t2, t3], h, k) ==
      (if t1.createdAt.hour == h && Counts(t1, k) then 1 else 0) +
      (if t2.createdAt.hour == h && Counts(t2, k) then 1 else 0) +
      (if t3.createdAt.hour == h && Counts(t3, k) then 1 else 0)
    ensures KindCount([t1, t2, t3], k) ==
      (if Counts(t1, k) then 1 else 0) + (if Counts(t2, k) then 1 else 0) + (if Counts(t3, k) then 1 else 0)
  {
    assert [t1] == [] + [t1] && [t1, t2] == [t1] + [t2] && [t1, t2, t3] == [t1, t2] + [t3];
    TallyStep([], t1, h, k);
    TallyStep([t1], t2, h, k);
    TallyStep([t1, t2], t3, h, k);
  }

  /** `generate_activity_stats`: one pass over the posts updating a 24-bucket table in place. */
  method GenerateActivityStats(tweets: seq<Tweet>) returns (stats: ActivityStats)
    ensures stats == StatsOf(tweets)
  {
    var byHour := new HourCount[24](h => NewHourCount(h));
    var i := 0;
    while i < |tweets|
      invariant 0 <= i <= |tweets|
      invariant forall h :: 0 <= h < 24 ==> byHour[h] == HourTally(tweets[..i], h)
    {
      var t := tweets[i];
      var hour := t.createdAt.hour;
      var c := byHour[hour];
      c := c.(tweetCount := c.tweetCount + 1);
      if IsRetweet(t) {
        c := c.(retweetCount := c.retweetCount + 1);
      }
      if t.isReply {
        c := c.(replyCount := c.replyCount + 1);
      }
      byHour[hour] := c;
      assert tweets[..i + 1] == tweets[..i] + [t];
      forall h | 0 <= h < 24
        ensures byHour[h] == HourTally(tweets[..i + 1], h)
      {
        TallyStep(tweets[..i], t, h, Posts);
        TallyStep(tweets[..i], t, h, Retweets);
        TallyStep(tweets[..i], t, h, Replies);
      }
      i := i + 1;
    }
    assert tweets[..i] == tweets;
    stats := ActivityStats(|tweets|, KindCount(tweets, Retweets), KindCount(tweets, Replies), byHour[..]);
  }

  // ---------------------------------------------------------------------------
  // Timestamp strings
  // ---------------------------------------------------------------------------

  /** Two decimal digits, `{:02}` / `%m` / `%d` / `%H` / `%M` / `%S` on a field below 100. */
  function Two(n: nat): (r: string)
    requires n < 100
    ensures |r| == 2 && AllDigits(r) && Value(r) == n
  {
    PadLength(n, 2);
    ValueOfPad(n, 2);
    Pad(n, 2)
  }

  /** chrono's `%Y`: the year zero-padded to four digits, with a sign outside 0..9999. */
  function YearText(y: int): (r: string)
    ensures 0 <= y <= 9999 ==> |r| == 4 && AllDigits(r) && Value(r) == y
    ensures y > 9999 ==> |r| >= 6 && r[0] == '+' && AllDigits(r[1..]) && Value(r[1..]) == y
    ensures y < 0 ==> |r| >= 5 && r[0] == '-' && AllDigits(r[1..]) && Value(r[1..]) == -y
    ensures y > 9999 ==> r[1] != '0'
    ensures y < 0 ==> |r| == 5 || r[1] != '0'
  {
    var n := if y < 0 then -y else y;
    ValueOfPad(n, 4);
    if 0 <= y <= 9999 then
      PadLength(y, 4);
      assert Pow10(4) == 10000;
      Pad(y, 4)
    else
      var digits := Pad(n, 4);
      assert y > 9999 ==> |digits| >= 5 by {
        if y > 9999 && |digits| < 5 {
          ValueBound(digits);
          assert Pow10(4) == 10000;
        }
      }
      assert Pow10(4) == 10000;
      assert n >= 10000 ==> digits[0] != '0' by {
        if n >= 10000 {
          PadWideLeadingDigit(n, 4);
        }
      }
      assert n < 10000 ==> |digits| == 4 by {
        if n < 10000 {
          PadLength(n, 4);
        }
      }
      var r := (if y > 9999 then "+" else "-") + digits;
      assert r[1..] == digits;
      r
  }

  lemma {:induction false} PowMonotone(a: nat, b: nat)
    requires a <= b
    ensures Pow10(a) <= Pow10(b)
    decreases b
  {
    if a < b {
      PowMonotone(a, b - 1);
    }
  }

  /** `format("%Y-%m-%d %H:%M:%S")`. */
  function DateTimeText(t: ValidDateTime): string {
    YearText(t.year) + "-" + Two(t.month) + "-" + Two(t.day) + " " +
    Two(t.hour) + ":" + Two(t.minute) + ":" + Two(t.second)
  }

  /** `format("%Y%m%d%H%M%S%3f")`: the milliseconds are always `000`, the archive has none. */
  function IdText(t: ValidDateTime): string {
    YearText(t.year) + Two(t.month) + Two(t.day) + Two(t.hour) + Two(t.minute) + Two(t.second) + "000"
  }

  /** The time of day in `DateTimeText`, `HH:MM:SS`. */
  function ClockText(t: ValidDateTime): (r: string)
    ensures |r| == 8 && r[2] == ':' && r[5] == ':'
    ensures AllDigits(r[..2]) && AllDigits(r[3..5]) && AllDigits(r[6..])
    ensures Value(r[..2]) == t.hour && Value(r[3..5]) == t.minute && Value(r[6..]) == t.second
  {
    var r := Two(t.hour) + ":" + Two(t.minute) + ":" + Two(t.second);
    assert r[..2] == Two(t.hour) && r[3..5] == Two(t.minute) && r[6..] == Two(t.second);
    r
  }

  /** The calendar date in `DateTimeText` for a four-digit year, `YYYY-MM-DD`. */
  lemma DateTextPieces(t: ValidDateTime)
    requires 0 <= t.year <= 9999
    ensures var r := YearText(t.year) + "-" + Two(t.month) + "-" + Two(t.day);
      && |r| == 10 && r[4] == '-' && r[7] == '-'
      && AllDigits(r[..4]) && Value(r[..4]) == t.year
      && AllDigits(r[5..7]) && Value(r[5..7]) == t.month
      && AllDigits(r[8..]) && Value(r[8..]) == t.day
  {
    var r := YearText(t.year) + "-" + Two(t.month) + "-" + Two(t.day);
    assert r[..4] == YearText(t.year) && r[5..7] == Two(t.month) && r[8..] == Two(t.day);
  }

  /**
   * For a four-digit year `DateTimeText` has 19 characters with the separators of
   * `YYYY-MM-DD HH:MM:SS`, and each field reads back as the record's field.
   */
  lemma DateTimeTextDecodes(t: ValidDateTime)
    requires 0 <= t.year <= 9999
    ensures var r := DateTimeText(t);
      && |r| == 19 && r[4] == '-' && r[7] == '-' && r[10] == ' ' && r[13] == ':' && r[16] == ':'
      && Value(r[..4]) == t.year && Value(r[5..7]) == t.month && Value(r[8..10]) == t.day
      && Value(r[11..13]) == t.hour && Value(r[14..16]) == t.minute && Value(r[17..]) == t.second
  {
    var date := YearText(t.year) + "-" + Two(t.month) + "-" + Two(t.day);
    var clock := ClockText(t);
    DateTextPieces(t);
    var r := DateTimeText(t);
    assert r == date + " " + clock;
    assert r[..4] == date[..4] && r[5..7] == date[5..7] && r[8..10] == date[8..];
    assert r[11..13] == clock[..2] && r[14..16] == clock[3..5] && r[17..] == clock[6..];
  }

  /**
   * For a four-digit year `IdText` is 17 decimal digits: the fields of the record in the
   * order year, month, day, hour, minute, second, then `000`.
   */
  lemma IdTextDecodes(t: ValidDateTime)
    requires 0 <= t.year <= 9999
    ensures var r := IdText(t);
      && |r| == 17 && AllDigits(r)
      && Value(r[..4]) == t.year && Value(r[4..6]) == t.month && Value(r[6..8]) == t.day
      && Value(r[8..10]) == t.hour && Value(r[10..12]) == t.minute && Value(r[12..14]) == t.second
      && r[14..] == "000"
  {
    var y := YearText(t.year);
    var mo := Two(t.month);
    var d := Two(t.day);
    var h := Two(t.hour);
    var mi := Two(t.minute);
    var s := Two(t.second);
    var r := IdText(t);
    assert r == y + mo + d + h + mi + s + "000";
    assert r[..4] == y && r[4..6] == mo && r[6..8] == d;
    assert r[8..10] == h && r[10..12] == mi && r[12..14] == s;
    assert r[14..] == "000";
    assert AllDigits(r) by {
      forall i | 0 <= i < 17 ensures IsDigit(r[i]) {
        if i < 4 { assert r[i] == y[i]; }
        else if i < 6 { assert r[i] == mo[i - 4]; }
        else if i < 8 { assert r[i] == d[i - 6]; }
        else if i < 10 { assert r[i] == h[i - 8]; }
        else if i < 12 { assert r[i] == mi[i - 10]; }
        else if i < 14 { assert r[i] == s[i - 12]; }
        else { assert r[i] == "000"[i - 14]; }
      }
    }
  }

  lemma YearExample()
    ensures YearText(2023) == "2023"
  {
    assert Pad(2, 1) == "2";
    assert Pad(20, 2) == "20";
    assert Pad(202, 3) == "202";
    assert Pad(2023, 4) == "2023";
  }

  lemma TwoExamples()
    ensures Two(3) == "03" && Two(11) == "11" && Two(4) == "04" && Two(12) == "12" && Two(48) == "48"
  {
    PadTwo(3);
    PadTwo(11);
    PadTwo(4);
    PadTwo(12);
    PadTwo(48);
  }

  /** The example of the source's tests: 2023-03-11 04:12:48 as an identifier. */
  lemma IdTextExample(t: ValidDateTime)
    requires t == DateTime(2023, 3, 11, 4, 12, 48)
    ensures IdText(t) == "20230311041248000"
  {
    YearExample();
    TwoExamples();
  }

  /** The same instant as a file creation time. */
  lemma DateTimeTextExample(t: ValidDateTime)
    requires t == DateTime(2023, 3, 11, 4, 12, 48)
    ensures DateTimeText(t) == "2023-03-11 04:12:48"
  {
    YearExample();
    TwoExamples();
  }

  // ---------------------------------------------------------------------------
  // String order
  // ---------------------------------------------------------------------------

  /** `String::cmp(a, b) != Greater`: lexicographic order by character. */
  predicate StrLe(a: string, b: string)
    decreases |a|
  {
    |a| == 0 || (|b| > 0 && (a[0] < b[0] || (a[0] == b[0] && StrLe(a[1..], b[1..]))))
  }

  lemma {:induction false} StrLeRefl(a: string)
    ensures StrLe(a, a)
    decreases |a|
  {
    if |a| > 0 {
      StrLeRefl(a[1..]);
    }
  }

  lemma {:induction false} StrLeTotal(a: string, b: string)
    ensures StrLe(a, b) || StrLe(b, a)
    decreases |a|
  {
    if |a| > 0 && |b| > 0 && a[0] == b[0] {
      StrLeTotal(a[1..], b[1..]);
    }
  }

  lemma {:induction false} StrLeTrans(a: string, b: string, c: string)
    requires StrLe(a, b) && StrLe(b, c)
    ensures StrLe(a, c)
    decreases |a|
  {
    if |a| > 0 && a[0] == b[0] && b[0] == c[0] {
      StrLeTrans(a[1..], b[1..], c[1..]);
    }
  }

  lemma {:induction false} StrLeAntisym(a: string, b: string)
    requires StrLe(a, b) && StrLe(b, a)
    ensures a == b
    decreases |a|
  {
    if |a| > 0 {
      StrLeAntisym(a[1..], b[1..]);
      assert a == [a[0]] + a[1..] && b == [b[0]] + b[1..];
    } else if |b| > 0 {
      assert false;
    }
  }

  // ---------------------------------------------------------------------------
  // Formatted posts and their stable sort
  // ---------------------------------------------------------------------------

  /** `FormattedTweet`: creation time as `YYYY-MM-DD HH:MM:SS` and the rewritten body. */
  datatype FormattedTweet = FormattedTweet(createdAt: string, text: string)

  function FormatOne(t: Tweet): FormattedTweet {
    FormattedTweet(DateTimeText(t.createdAt), FormatText(t.fullText))
  }

  function FormatAll(ts: seq<Tweet>): (r: seq<FormattedTweet>)
    ensures |r| == |ts| && forall i :: 0 <= i < |ts| ==> r[i] == FormatOne(ts[i])
  {
    seq(|ts|, i requires 0 <= i < |ts| => FormatOne(ts[i]))
  }

  predicate Sorted(s: seq<FormattedTweet>) {
    forall i, j :: 0 <= i < j < |s| ==> StrLe(s[i].createdAt, s[j].createdAt)
  }

  /** Puts `x` after every element whose key is not greater than its own: one step of a stable insertion sort. */
  function Insert(s: seq<FormattedTweet>, x: FormattedTweet): seq<FormattedTweet>
    decreases |s|
  {
    if |s| == 0 || StrLe(s[|s| - 1].createdAt, x.createdAt) then s + [x]
    else Insert(s[..|s| - 1], x) + [s[|s| - 1]]
  }

  /** `sort_by(|a, b| a.created_at.cmp(&b.created_at))`: the stable sort, as an insertion sort from the front. */
  function SortByCreatedAt(s: seq<FormattedTweet>): seq<FormattedTweet>
    decreases |s|
  {
    if |s| == 0 then [] else Insert(SortByCreatedAt(s[..|s| - 1]), s[|s| - 1])
  }

  /** Inserting adds exactly the one element. */
  lemma {:induction false} InsertPermutes(s: seq<FormattedTweet>, x: FormattedTweet)
    ensures multiset(Insert(s, x)) == multiset(s) + multiset{x}
    decreases |s|
  {
    if !(|s| == 0 || StrLe(s[|s| - 1].createdAt, x.createdAt)) {
      var init := s[..|s| - 1];
      InsertPermutes(init, x);
      assert s == init + [s[|s| - 1]];
    }
  }

  /** The sort is a permutation. */
  lemma {:induction false} SortPermutes(s: seq<FormattedTweet>)
    ensures multiset(SortByCreatedAt(s)) == multiset(s)
    decreases |s|
  {
    if |s| > 0 {
      var init := s[..|s| - 1];
      SortPermutes(init);
      InsertPermutes(SortByCreatedAt(init), s[|s| - 1]);
      assert s == init + [s[|s| - 1]];
    }
  }

  /** Sorting one more element inserts it into the sorted rest. */
  lemma SortSnoc(s: seq<FormattedTweet>, x: FormattedTweet)
    ensures SortByCreatedAt(s + [x]) == Insert(SortByCreatedAt(s), x)
  {
    assert (s + [x])[..|s|] == s;
  }

  lemma {:induction false} InsertSorted(s: seq<FormattedTweet>, x: FormattedTweet)
    requires Sorted(s)
    ensures Sorted(Insert(s, x))
    decreases |s|
  {
    if |s| == 0 {
    } else if StrLe(s[|s| - 1].createdAt, x.createdAt) {
      var r := s + [x];
      forall i, j | 0 <= i < j < |r| ensures StrLe(r[i].createdAt, r[j].createdAt) {
        if j == |s| && i < |s| - 1 {
          StrLeTrans(s[i].createdAt, s[|s| - 1].createdAt, x.createdAt);
        }
      }
    } else {
      var init := s[..|s| - 1];
      var last := s[|s| - 1];
      InsertSorted(init, x);
      StrLeTotal(last.createdAt, x.createdAt);
      var ins := Insert(init, x);
      InsertPermutes(init, x);
      var r := ins + [last];
      forall i, j | 0 <= i < j < |r| ensures StrLe(r[i].createdAt, r[j].createdAt) {
        if j == |ins| {
          assert r[i] in multiset(ins);
          assert r[i] == x || r[i] in multiset(init);
          if r[i] != x {
            var k :| 0 <= k < |init| && init[k] == r[i];
          }
        }
      }
    }
  }

  lemma {:induction false} SortSorted(s: seq<FormattedTweet>)
    ensures Sorted(SortByCreatedAt(s))
    decreases |s|
  {
    if |s| > 0 {
      SortSorted(s[..|s| - 1]);
      InsertSorted(SortByCreatedAt(s[..|s| - 1]), s[|s| - 1]);
    }
  }

  /** The elements whose key is `k`, in order. */
  function WithCreatedAt(s: seq<FormattedTweet>, k: string): seq<FormattedTweet>
    decreases |s|
  {
    if |s| == 0 then []
    else WithCreatedAt(s[..|s| - 1], k) + (if s[|s| - 1].createdAt == k then [s[|s| - 1]] else [])
  }

  lemma WithCreatedAtSnoc(s: seq<FormattedTweet>, x: FormattedTweet, k: string)
    ensures WithCreatedAt(s + [x], k) == WithCreatedAt(s, k) + (if x.createdAt == k then [x] else [])
  {
    assert (s + [x])[..|s|] == s;
  }

  /** Inserting `x` into a sorted sequence puts it after every element with its key. */
  lemma {:induction false} InsertStable(s: seq<FormattedTweet>, x: FormattedTweet, k: string)
    requires Sorted(s)
    ensures WithCreatedAt(Insert(s, x), k) == WithCreatedAt(s, k) + (if x.createdAt == k then [x] else [])
    decreases |s|
  {
    if |s| == 0 || StrLe(s[|s| - 1].createdAt, x.createdAt) {
      WithCreatedAtSnoc(s, x, k);
    } else {
      var init := s[..|s| - 1];
      var last := s[|s| - 1];
      assert Sorted(init);
      InsertStable(init, x, k);
      WithCreatedAtSnoc(Insert(init, x), last, k);
      WithCreatedAtSnoc(init, last, k);
      assert s == init + [last];
      if x.createdAt == k && last.createdAt == k {
        StrLeRefl(k);
      }
    }
  }

  /** The sort is stable: the elements sharing any one key keep their relative order. */
  lemma {:induction false} SortStable(s: seq<FormattedTweet>, k: string)
    ensures WithCreatedAt(SortByCreatedAt(s), k) == WithCreatedAt(s, k)
    decreases |s|
  {
    if |s| > 0 {
      var init := s[..|s| - 1];
      var x := s[|s| - 1];
      assert s == init + [x];
      SortStable(init, k);
      SortSorted(init);
      SortSnoc(init, x);
      InsertStable(SortByCreatedAt(init), x, k);
      WithCreatedAtSnoc(init, x, k);
    }
  }

  /** The in-place stable insertion sort of the formatted posts. */
  method SortInPlace(a: array<FormattedTweet>)
    modifies a
    ensures a[..] == SortByCreatedAt(old(a[..]))
  {
    ghost var input := a[..];
    var i := 0;
    while i < a.Length
      invariant 0 <= i <= a.Length
      invariant a[..i] == SortByCreatedAt(input[..i])
      invariant a[i..] == input[i..]
    {
      InsertLast(a, i);
      assert input[..i + 1] == input[..i] + [input[i]];
      SortSnoc(input[..i], input[i]);
      assert a[i + 1..] == input[i + 1..];
      i := i + 1;
    }
    assert a[..] == a[..a.Length] && input[..a.Length] == input;
  }

  /** The inner loop: moves `a[i]` left past every greater key, behind the sorted prefix `a[..i]`. */
  method InsertLast(a: array<FormattedTweet>, i: nat)
    requires i < a.Length
    modifies a
    ensures a[..i + 1] == Insert(old(a[..i]), old(a[i]))
    ensures a[i + 1..] == old(a[i + 1..])
  {
    ghost var sorted := a[..i];
    var x := a[i];
    var j := i;
    assert sorted[..j] == sorted && sorted[j..] == [] && sorted + [] == sorted;
    while j > 0 && !StrLe(a[j - 1].createdAt, x.createdAt)
      invariant 0 <= j <= i
      invariant forall k :: 0 <= k < j ==> a[k] == sorted[k]
      invariant forall k :: j < k <= i ==> a[k] == sorted[k - 1]
      invariant forall k :: i < k < a.Length ==> a[k] == old(a[k])
      invariant Insert(sorted, x) == Insert(sorted[..j], x) + sorted[j..]
    {
      a[j] := a[j - 1];
      j := j - 1;
      InsertShift(sorted, j, x);
    }
    a[j] := x;
    assert Insert(sorted[..j], x) == sorted[..j] + [x];
    assert a[..i + 1] == sorted[..j] + [x] + sorted[j..];
    assert a[i + 1..] == old(a[i + 1..]);
  }

  /** One shift of the inner loop: the element at `j` moves behind the insertion point. */
  lemma InsertShift(sorted: seq<FormattedTweet>, j: nat, x: FormattedTweet)
    requires j < |sorted|
    requires !StrLe(sorted[j].createdAt, x.createdAt)
    requires Insert(sorted, x) == Insert(sorted[..j + 1], x) + sorted[j + 1..]
    ensures Insert(sorted, x) == Insert(sorted[..j], x) + sorted[j..]
  {
    var p := sorted[..j + 1];
    assert p[..|p| - 1] == sorted[..j];
    assert sorted[j..] == [sorted[j]] + sorted[j + 1..];
  }

  /**
   * `format_tweets`: every post formatted, then sorted by the creation string. The result is a
   * sorted permutation of the formatted posts, and posts with equal strings keep their order.
   */
  method FormatTweets(tweets: seq<Tweet>) returns (r: seq<FormattedTweet>)
    ensures r == SortByCreatedAt(FormatAll(tweets))
    ensures multiset(r) == multiset(FormatAll(tweets))
    ensures Sorted(r)
    ensures forall k :: WithCreatedAt(r, k) == WithCreatedAt(FormatAll(tweets), k)
  {
    var formatted := FormatAll(tweets);
    var a := new FormattedTweet[|formatted|](i requires 0 <= i < |formatted| => formatted[i]);
    assert a[..] == formatted;
    SortInPlace(a);
    r := a[..];
    SortSorted(formatted);
    SortPermutes(formatted);
    forall k {
      SortStable(formatted, k);
    }
  }

  // ---------------------------------------------------------------------------
  // The earliest post and the note input
  // ---------------------------------------------------------------------------

  /** `extract_earliest_tweet_created_at`: `min_by` on the creation time, keeping the first of equals. */
  function EarliestCreatedAt(ts: seq<Tweet>): (e: ValidDateTime)
    requires |ts| > 0
    ensures exists i :: 0 <= i < |ts| && ts[i].createdAt == e
    ensures forall i :: 0 <= i < |ts| ==> !Before(ts[i].createdAt, e)
    decreases |ts|
  {
    if |ts| == 1 then ts[0].createdAt
    else
      var init := ts[..|ts| - 1];
      var e := EarliestCreatedAt(init);
      var last := ts[|ts| - 1].createdAt;
      assert forall i :: 0 <= i < |init| ==> init[i] == ts[i];
      if Before(last, e) then
        forall i | 0 <= i < |init| ensures !Before(ts[i].createdAt, last) {
          if Before(ts[i].createdAt, last) {
            BeforeTransitive(ts[i].createdAt, last, e);
          }
        }
        BeforeIrreflexive(last);
        last
      else e
  }

  /** `MonthlyTweetsTemplateInput`: what the note template is filled with. */
  datatype TemplateInput = TemplateInput(
    id: string, fileCreatedAt: string, month: string, year: string,
    stats: ActivityStats, tweets: seq<FormattedTweet>)

  /**
   * `MonthlyTweetsTemplateInput::new` for a non-empty group (the source unwraps the minimum):
   * the identifiers come from the earliest post, the statistics and posts from all of them.
   */
  method NewTemplateInput(tweets: seq<Tweet>) returns (input: TemplateInput)
    requires |tweets| > 0
    ensures var e := EarliestCreatedAt(tweets);
      && input.year == IntToString(e.year)
      && input.month == Two(e.month)
      && input.id == IdText(e)
      && input.fileCreatedAt == DateTimeText(e)
    ensures input.stats == StatsOf(tweets)
    ensures input.tweets == SortByCreatedAt(FormatAll(tweets))
  {
    var earliest := EarliestCreatedAt(tweets);
    var stats := GenerateActivityStats(tweets);
    var formatted := FormatTweets(tweets);
    input := TemplateInput(IdText(earliest), DateTimeText(earliest), Two(earliest.month),
                           IntToString(earliest.year), stats, formatted);
  }
}
