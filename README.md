# twitter2obsidian, modelled in Dafny

twitter2obsidian converts a Twitter archive export (`tweets.js`) into one Obsidian note per calendar month. Its pipeline has these steps:

1. Skip the JavaScript preamble in front of the JSON array.
2. Turn every archive record into a `Tweet`: a creation time, a body text and a reply flag. One bad record makes the whole batch fail.
3. Optionally keep only the posts between a start month and an end month. Both bounds are inclusive.
4. Group the posts by `year * 100 + month`.
5. For every group, build the input of the note template:
   - an identifier and a creation stamp taken from the earliest post, plus its year and zero-padded month;
   - activity statistics: totals and a 24-bucket histogram by hour;
   - the posts, with their text rewritten by four substitution rules and sorted by their timestamp string.

Each piece of that pipeline is modelled by a Dafny module, with its main properties proved:

- `Wrappers`: `Option` and `Result`.
- `Sequences`: subsequences, prefixes and occurrence counts.
- `Decimal`: zero-padded decimal text and its value, and `i32::to_string`.
- `Calendar`: the proleptic Gregorian calendar.
  - A date-time on the wall clock is a record (year, month, day, hour, minute, second).
  - Day numbers and seconds since 1970-01-01 are defined on it.
  - A record can be shifted by less than one day.
  - Lexicographic order on records coincides with the order of instants.
- `TwitterDate`: chrono's `"%a %b %d %H:%M:%S %z %Y"` layout, as used in `src/tweet.rs`.
  - Reading it checks the ranges, the offset and that the weekday agrees with the date.
  - Writing it is the inverse of reading it.
  - `ParseTwitterDate` gives the UTC instant the string denotes.
- `Tweet`: the post value, the `RT @` test and the fail-fast conversion of records.
- `Formatter`: `Formatter::format_text`, four substitutions applied in a fixed order.
  - The first is `str::replace` of every newline by a newline and two spaces.
  - The other three are regular-expression substitutions, each modelled as a left-to-right scanner with leftmost, greedy, non-overlapping replacement.
- `MonthlyTweets`: the note input.
  - The histogram is an array loop.
  - The earliest post is chosen.
  - The `%Y%m%d%H%M%S%3f` and `%Y-%m-%d %H:%M:%S` stamps are written.
  - The stable sort by timestamp string is an in-place insertion sort on an array.
- `Driver`: the parts of `src/main.rs` in scope: the preamble skip, the two month filters and the grouping loop over a map.

The host's "local" zone is a fixed offset `zone` of less than one day east of UTC. A `Tweet` stores its creation time on that local wall clock. The fields of the Rust `Tweet` are the fields of the Dafny datatype, so the accessors of `src/tweet.rs:21-29` are its destructors and return the stored values unchanged.

The earliest post is chosen by `min_by`, which keeps the first of several equal minima. Equal timestamps are equal records, so the earliest timestamp is in any case well defined.

One behaviour of the code is changed rather than modelled as written. A record with `created_at` or `full_text` missing makes the source panic (`unwrap`). Here the batch result is an error naming the missing field.

## Model

| member | source | states |
|---|---|---|
| `Calendar.Weekday` | src/tweet.rs:63 | the weekday index that `%a` is checked against lies in 0..6, with Monday as 0. Its calendar meaning is fixed by `Calendar.WeekdayEpoch`, `Calendar.WeekdayOfNextDay`, `Calendar.WeekdayOfPrevDay` and `Calendar.SameWeekday` |
| `Calendar.WeekdayEpoch` | src/tweet.rs:63 | any time on 1970-01-01 falls on a Thursday (index 3) |
| `Calendar.WeekdayOfNextDay` | src/tweet.rs:63 | the next calendar day has the next weekday, with Sunday followed by Monday |
| `Calendar.WeekdayOfPrevDay` | src/tweet.rs:63 | the previous calendar day has the previous weekday, with Monday preceded by Sunday |
| `Calendar.SameWeekday` | src/tweet.rs:63 | two dates share a weekday exactly when their day numbers differ by a multiple of 7 |
| `Calendar.NextDay` | src/tweet.rs:64 | the next calendar day is valid, has day number plus one and the same time of day, across month and year ends and leap days |
| `Calendar.PrevDay` | src/tweet.rs:64 | the previous calendar day is valid, has day number minus one and the same time of day |
| `Calendar.Shift` | src/tweet.rs:64 | moving a valid wall clock by fewer than 86400 seconds gives a valid wall clock whose seconds count is exactly the old one plus the shift |
| `Calendar.MonthStart` | src/main.rs:49 | `YYYY-MM-01` at midnight is a valid date-time at second 0 of the first day of that month |
| `Calendar.YearStep` | src/tweet.rs:63 | the day count before year y+1 is the day count before y plus the length of y (Gregorian leap rule) |
| `Calendar.DayNumberMonotone` | src/main.rs:53 | a lexicographically earlier valid date has a smaller day number |
| `Calendar.Before` | src/main.rs:53 | chrono's order on date-times: lexicographic on (year, month, day, hour, minute, second). `Calendar.BeforeIsInstantOrder`, `Calendar.BeforeTransitive` and `Calendar.BeforeTotal` specify it |
| `Calendar.BeforeIsInstantOrder` | src/templates/monthly_tweets.rs:69 | on valid records, comparing (year, month, day, hour, minute, second) lexicographically is the same as comparing instants, in both directions |
| `Calendar.SecondsInjective` | src/templates/monthly_tweets.rs:69 | two valid records that denote the same instant are equal |
| `Calendar.BeforeTransitive` | src/templates/monthly_tweets.rs:69 | the order on records that `cmp` uses is transitive |
| `Calendar.BeforeTotal` | src/templates/monthly_tweets.rs:69 | the order on records is total: two records are equal or one is before the other |
| `Decimal.ValueOfPad` | src/templates/monthly_tweets.rs:74 | zero-padded decimal text of n has value n, whatever the width |
| `Decimal.PadLength` | src/templates/monthly_tweets.rs:74 | a number below 10^w is written in exactly w digits |
| `Decimal.PadOfValue` | src/templates/monthly_tweets.rs:74 | any digit string padded back to its own length from its value is itself, so leading zeros are kept |
| `Decimal.IntToString` | src/templates/monthly_tweets.rs:112 | `year().to_string()` is the decimal digits of the year, with a leading '-' for negative years. It has no leading zero: 0 is "0", and otherwise the first digit is not '0' |
| `Decimal.PadLeadingDigit` | src/templates/monthly_tweets.rs:112 | unpadded decimal text of a positive number does not start with '0' |
| `Decimal.PadWideLeadingDigit` | src/templates/monthly_tweets.rs:74 | a number of at least 10^w is written, padded to w digits, without a leading zero |
| `TwitterDate.IndexOfDistinct` | src/tweet.rs:63 | in a list of distinct names, looking up the i-th name gives i |
| `TwitterDate.DatePiece` | src/tweet.rs:63 | the "Sat Mar 11" piece written from weekday, month and day is 10 characters and is read back to the same fields |
| `TwitterDate.DatePieceBack` | src/tweet.rs:63 | a 10-character piece that reads as a date is the writing of what it reads as |
| `TwitterDate.ClockPiece` | src/tweet.rs:63 | the " HH:MM:SS" piece is 9 characters and is read back to the same hour, minute and second |
| `TwitterDate.ClockPieceBack` | src/tweet.rs:63 | a clock piece that reads is the writing of what it reads as |
| `TwitterDate.OffsetPiece` | src/tweet.rs:63 | the " +HHMM" / " -HHMM" piece is 6 characters and is read back to the same sign, hours and minutes |
| `TwitterDate.OffsetPieceBack` | src/tweet.rs:63 | an offset piece that reads is the writing of what it reads as |
| `TwitterDate.YearPiece` | src/tweet.rs:63 | the " YYYY" piece is 5 characters and is read back to the same year |
| `TwitterDate.YearPieceBack` | src/tweet.rs:63 | a year piece that reads is the writing of what it reads as |
| `TwitterDate.ScanOfRender` | src/tweet.rs:63 | any fields that fit their digit counts render to 30 characters that read back to the same fields |
| `TwitterDate.RenderOfScan` | src/tweet.rs:63 | a 30-character string that reads as fields is their rendering |
| `TwitterDate.CheckFields` | src/tweet.rs:63 | read fields are accepted exactly when they name an existing date and time and a valid offset, and the weekday name agrees with the date. The accepted stamp is those fields. A failure names the first check that fails, in chrono's order: first the field ranges, including offset minutes below 60, giving `OutOfRange`; then the weekday, giving `WeekdayMismatch`; then an offset of a full day or more, giving `OutOfRange` |
| `TwitterDate.WeekdayBeforeOffsetExample` | src/tweet.rs:62-63 | "Fri Mar 11 04:12:48 +2400 2023" has a wrong weekday and a full-day offset, and is rejected for the weekday, as chrono does |
| `TwitterDate.ScanStamp` | src/tweet.rs:62-63 | an accepted string gives a valid wall clock with a 4-digit year and an offset below one day with minutes below 60 |
| `TwitterDate.FormatStamp` | src/tweet.rs:63 | writes a stamp in the archive layout. `TwitterDate.ScanOfFormat` and `TwitterDate.FormatOfScan` make it the inverse of reading |
| `TwitterDate.ScanOfFormat` | src/tweet.rs:63 | every valid stamp with a 4-digit year is written in the layout and read back to itself |
| `TwitterDate.FormatOfScan` | src/tweet.rs:63 | every accepted string is the writing of the stamp it reads as, so a string has at most one reading |
| `TwitterDate.ScanOfRenderedFields` | src/tweet.rs:63 | reading a rendering accepts or rejects exactly as the range, offset and weekday check does |
| `TwitterDate.UnknownMonthRejected` | src/tweet.rs:63 | a string whose month name is not one of Jan..Dec is rejected as malformed |
| `TwitterDate.UnknownWeekdayRejected` | src/tweet.rs:63 | a string whose weekday name is not one of Mon..Sun is rejected as malformed |
| `TwitterDate.ParseTwitterDate` | src/tweet.rs:62-65 | succeeds exactly on accepted strings and otherwise carries the reason. Its UTC instant is the written wall clock minus the signed offset |
| `TwitterDate.ParseOfFormat` | src/tweet.rs:62-65 | parsing the writing of any valid stamp succeeds, at the written wall clock minus the written offset |
| `TwitterDate.ParseDeterminesRecord` | src/tweet.rs:62-65 | the parsed UTC record is the only valid record at that instant |
| `TwitterDate.ParseAtZeroOffset` | src/tweet.rs:64 | with offset +0000 the UTC record is the written wall clock itself |
| `TwitterDate.ExampleRendering` | src/tweet.rs:73-74 | 2023-03-11 04:12:48 at +0000 is written "Sat Mar 11 04:12:48 +0000 2023" |
| `TwitterDate.WeekdayExample` | src/tweet.rs:73 | 2023-03-11 is a Saturday |
| `TwitterDate.ParseExample` | src/tweet.rs:71-76 | the test string parses to 2023-03-11 04:12:48 UTC |
| `TwitterDate.HourOutOfRangeExample` | src/tweet.rs:62-63 | hour 24 fits the layout but is rejected as out of range |
| `TwitterDate.MissingOffsetExample` | src/tweet.rs:62-63 | a string without its offset is rejected as malformed |
| `TwitterDate.UnknownMonthExample` | src/tweet.rs:62-63 | month name "Foo" is rejected as malformed |
| `Tweet.ToLocal` | src/tweet.rs:16 | the local wall clock denotes the UTC instant plus the zone's offset |
| `Tweet.NewTweet` | src/tweet.rs:14-20 | succeeds exactly when the timestamp parses, with the parser's error otherwise. The text and reply flag are stored unchanged and the time is the parsed instant in the local zone |
| `Tweet.IsRetweet` | src/tweet.rs:30-32 | true exactly when the body has at least four characters and they are "RT @" |
| `Tweet.ConvertRecord` | src/tweet.rs:51-57 | a record converts exactly when `created_at` and `full_text` are strings and the date parses. The fields are checked in that order: a missing `created_at` gives `MissingCreatedAt`, then a missing `full_text` gives `MissingFullText`, then a timestamp that does not parse gives `BadDate` carrying the parser's own error. `is_reply` is true exactly when the reply target is present and not null |
| `Tweet.Collect` | src/tweet.rs:50-58 | `map().collect()` into a `Result` succeeds exactly when every element maps to a value, and then keeps length and order. Otherwise it returns the error of the first element that fails |
| `Tweet.ParseTweets` | src/tweet.rs:48-59 | all records convert, giving the tweets in record order, or the whole batch fails with the first failing record's error and no partial list |
| `Formatter.Indent` | src/templates/mod.rs:19 | `replace("\n", "\n  ")`. `Formatter.IndentLength`, `Formatter.IndentKeepsNewlines`, `Formatter.UnindentOfIndent`, `Formatter.IndentIdentity`, `Formatter.IndentInserts` and `Formatter.IndentNotIdempotent` specify it |
| `Formatter.IndentLength` | src/templates/mod.rs:19 | the newline rule lengthens the text by two characters per newline |
| `Formatter.IndentKeepsNewlines` | src/templates/mod.rs:19 | the newline rule neither adds nor removes newlines |
| `Formatter.UnindentOfIndent` | src/templates/mod.rs:19 | deleting the two spaces after each newline gives back the input |
| `Formatter.IndentIdentity` | src/templates/mod.rs:19 | text without a newline is left as is by the newline rule |
| `Formatter.IndentInserts` | src/templates/mod.rs:19 | the newline rule only inserts: the input is a subsequence of its output |
| `Formatter.IndentNotIdempotent` | src/templates/mod.rs:19 | on text with a newline, applying the newline rule twice differs from applying it once |
| `Formatter.Account` | src/templates/mod.rs:13-20 | rule 2, `@([a-zA-Z0-9_]+)` to `[[@$1]]`. `Formatter.AccountHandle`, `Formatter.AccountOther`, `Formatter.AccountInserts`, `Formatter.AccountIdentity`, `Formatter.AccountGrows` and `Formatter.AccountNotIdempotent` specify it |
| `Formatter.AccountHandle` | src/templates/mod.rs:13-20 | '@' followed by a maximal non-empty run of [A-Za-z0-9_] becomes "[[@run]]", and scanning goes on after the run |
| `Formatter.AccountOther` | src/templates/mod.rs:13-20 | a character that does not start a handle, including an '@' not followed by a word character, is copied as is |
| `Formatter.AccountInserts` | src/templates/mod.rs:20 | the account rule only inserts: the input is a subsequence of its output |
| `Formatter.AccountIdentity` | src/templates/mod.rs:20 | text without '@' is left as is by the account rule |
| `Formatter.AccountGrows` | src/templates/mod.rs:20 | the account rule never shortens text and adds at least four characters when there is a handle, whose output again has one |
| `Formatter.AccountNotIdempotent` | src/templates/mod.rs:20 | on text with a handle, applying the account rule twice differs from applying it once |
| `Formatter.HashNumber` | src/templates/mod.rs:14-24 | rule 3, `#(\d+)([marks]+)` to `#$1 $2`. `Formatter.HashNumberMatch`, `Formatter.HashNumberNoMatch`, `Formatter.HashNumberPassThrough`, `Formatter.HashNumberInserts` and `Formatter.HashNumberIdempotent` specify it |
| `Formatter.HashNumberMatch` | src/templates/mod.rs:14-24 | '#', a non-empty digit run and a maximal non-empty run of 「」『』（）【】:：｜\| get exactly one space between the digits and the run, and scanning goes on after the run |
| `Formatter.HashNumberNoMatch` | src/templates/mod.rs:14-24 | where no match of rule 3 starts at the first character, that character is copied and the rule goes on with the rest of the text |
| `Formatter.HashNumberPassThrough` | src/templates/mod.rs:21-24 | a stretch without '#' is copied unchanged by the hash-number rule |
| `Formatter.HashNumberIdentity` | src/templates/mod.rs:21-24 | text without '#' is left as is by the hash-number rule |
| `Formatter.HashNumberInserts` | src/templates/mod.rs:21-24 | the hash-number rule only inserts: the input is a subsequence of its output |
| `Formatter.HashNumberIdempotent` | src/templates/mod.rs:14-24 | applying the hash-number rule twice is the same as applying it once |
| `Formatter.HashUrl` | src/templates/mod.rs:15-25 | rule 4, `#(\d+)http` to `#$1 http`. `Formatter.HashUrlMatch`, `Formatter.HashUrlNoMatch`, `Formatter.HashUrlPassThrough`, `Formatter.HashUrlInserts` and `Formatter.HashUrlIdempotent` specify it |
| `Formatter.HashUrlMatch` | src/templates/mod.rs:15-25 | "#<digits>http" becomes "#<digits> http", and scanning goes on after "http" |
| `Formatter.HashUrlNoMatch` | src/templates/mod.rs:15-25 | where no match of rule 4 starts at the first character, that character is copied and the rule goes on with the rest of the text |
| `Formatter.HashUrlPassThrough` | src/templates/mod.rs:25 | a stretch without '#' is copied unchanged by the hash-url rule |
| `Formatter.HashUrlKeepsHttp` | src/templates/mod.rs:25 | the hash-url rule's output starts with "http" exactly when its input does |
| `Formatter.HashUrlIdentity` | src/templates/mod.rs:25 | text without '#' is left as is by the hash-url rule |
| `Formatter.HashUrlInserts` | src/templates/mod.rs:25 | the hash-url rule only inserts: the input is a subsequence of its output |
| `Formatter.HashUrlIdempotent` | src/templates/mod.rs:15-25 | applying the hash-url rule twice is the same as applying it once |
| `Formatter.FormatText` | src/templates/mod.rs:18-27 | the formatted text contains the input as a subsequence, and text with no '\n', '@' or '#' is returned unchanged |
| `Formatter.PlainTextUnchanged` | src/templates/mod.rs:18-27 | the four rules, composed in the order newline, account, hash-number, hash-url, leave plain text unchanged |
| `MonthlyTweets.NewHourCount` | src/templates/monthly_tweets.rs:19-26 | a new bucket has the given hour and zero counts |
| `MonthlyTweets.PostsAreAll` | src/templates/monthly_tweets.rs:96 | the post count is the number of input tweets |
| `MonthlyTweets.HourSumTotal` | src/templates/monthly_tweets.rs:85-98 | summing a kind's per-hour tallies over the 24 hours gives that kind's total, because every hour lies in 0..23 |
| `MonthlyTweets.BucketSumOfTallies` | src/templates/monthly_tweets.rs:80-95 | the sum of the first n buckets of the statistics is the sum of the first n hours' tallies |
| `MonthlyTweets.StatsOf` | src/templates/monthly_tweets.rs:79-105 | the statistics as counts over the whole input, the reference for the loop. `MonthlyTweets.StatsConsistent`, `MonthlyTweets.StatsOfNothing`, `MonthlyTweets.OtherHoursUnchanged` and `MonthlyTweets.StatsExample` specify it |
| `MonthlyTweets.StatsConsistent` | src/templates/monthly_tweets.rs:79-105 | there are 24 buckets and bucket h has hour h. The post, retweet and reply totals are each the sum of the buckets' counts, and the post total is the number of tweets |
| `MonthlyTweets.StatsOfNothing` | src/templates/monthly_tweets.rs:80-84 | empty input gives zero totals and 24 fresh, all-zero buckets |
| `MonthlyTweets.RetweetReplyCountsTwice` | src/templates/monthly_tweets.rs:88-94 | a tweet that is both a retweet and a reply raises the post, retweet and reply counts of its hour by one each |
| `MonthlyTweets.OtherHoursUnchanged` | src/templates/monthly_tweets.rs:85-95 | processing one more tweet leaves every bucket of another hour unchanged |
| `MonthlyTweets.StatsExample` | src/templates/monthly_tweets.rs:195-277 | tweets at hours 0, 2 (retweet) and 23 (reply) give totals 3/1/1, buckets 0, 2 and 23 as in the test, and the other 21 buckets all zero |
| `MonthlyTweets.GenerateActivityStats` | src/templates/monthly_tweets.rs:79-105 | the array loop over the tweets computes exactly the statistics of the whole input |
| `MonthlyTweets.Two` | src/templates/monthly_tweets.rs:113 | `{:02}` of a number below 100 is two digits whose value is the number |
| `MonthlyTweets.YearText` | src/templates/monthly_tweets.rs:74 | `%Y` is four digits of the year for years 0..9999. Otherwise it carries an explicit sign followed by the digits of the year's magnitude: exactly four, zero-padded, for years -9999..-1, and with no leading zero for larger magnitudes |
| `MonthlyTweets.ClockText` | src/templates/monthly_tweets.rs:77 | "HH:MM:SS" has colons at positions 2 and 5, and its digit pairs have the values of hour, minute and second |
| `MonthlyTweets.DateTimeText` | src/templates/monthly_tweets.rs:76-78 | `%Y-%m-%d %H:%M:%S`, also used at line 59 for each post. `MonthlyTweets.DateTimeTextDecodes` and `MonthlyTweets.DateTimeTextExample` specify it |
| `MonthlyTweets.DateTimeTextDecodes` | src/templates/monthly_tweets.rs:76-78 | `%Y-%m-%d %H:%M:%S` is 19 characters with the separators in place, and its digit groups have the values of the six fields |
| `MonthlyTweets.IdText` | src/templates/monthly_tweets.rs:73-75 | `%Y%m%d%H%M%S%3f`. `MonthlyTweets.IdTextDecodes` and `MonthlyTweets.IdTextExample` specify it |
| `MonthlyTweets.IdTextDecodes` | src/templates/monthly_tweets.rs:73-75 | `%Y%m%d%H%M%S%3f` is 17 digits: the six fields in 4+2+2+2+2+2 digits, then "000" |
| `MonthlyTweets.IdTextExample` | src/templates/monthly_tweets.rs:178-184 | 2023-03-11 04:12:48 gives the identifier "20230311041248000" |
| `MonthlyTweets.DateTimeTextExample` | src/templates/monthly_tweets.rs:186-193 | 2023-03-11 04:12:48 gives "2023-03-11 04:12:48" |
| `MonthlyTweets.StrLeTotal` | src/templates/monthly_tweets.rs:63 | `String::cmp` (lexicographic order on characters) is total |
| `MonthlyTweets.StrLeTrans` | src/templates/monthly_tweets.rs:63 | `String::cmp` is transitive |
| `MonthlyTweets.StrLeAntisym` | src/templates/monthly_tweets.rs:63 | `String::cmp` is antisymmetric |
| `MonthlyTweets.FormatAll` | src/templates/monthly_tweets.rs:56-62 | the map keeps length and order: entry i is tweet i's timestamp string and formatted text |
| `MonthlyTweets.SortByCreatedAt` | src/templates/monthly_tweets.rs:63 | the reference stable sort by timestamp string. `MonthlyTweets.SortPermutes`, `MonthlyTweets.SortSorted` and `MonthlyTweets.SortStable` specify it |
| `MonthlyTweets.SortPermutes` | src/templates/monthly_tweets.rs:63 | the sort returns a permutation of its input |
| `MonthlyTweets.SortSorted` | src/templates/monthly_tweets.rs:63 | the sort returns entries in ascending order of their timestamp string |
| `MonthlyTweets.SortStable` | src/templates/monthly_tweets.rs:63 | the sort is stable: the entries sharing a timestamp string keep their input order |
| `MonthlyTweets.SortInPlace` | src/templates/monthly_tweets.rs:63 | sorting the array in place leaves exactly the stable sort of its old contents |
| `MonthlyTweets.InsertLast` | src/templates/monthly_tweets.rs:63 | one pass moves element i into its place in the sorted prefix, behind equal keys, and leaves the rest of the array alone |
| `MonthlyTweets.FormatTweets` | src/templates/monthly_tweets.rs:54-65 | returns the formatted inputs as a permutation, sorted ascending by timestamp string and stable among equal strings |
| `MonthlyTweets.EarliestCreatedAt` | src/templates/monthly_tweets.rs:66-72 | the earliest timestamp belongs to some input tweet and no tweet is earlier |
| `MonthlyTweets.NewTemplateInput` | src/templates/monthly_tweets.rs:108-129 | year, month, id and file stamp are written from the earliest timestamp. The statistics are those of all the tweets, and the posts are the sorted formatted tweets |
| `Driver.TrimPreamble` | src/main.rs:42 | the result is a suffix of the content that is empty or starts with '['. No dropped character is '[' |
| `Driver.TrimPreambleIdempotent` | src/main.rs:42 | trimming twice is trimming once |
| `Driver.TrimPreambleOfPrefix` | src/main.rs:42 | a preamble without '[' in front of a body starting with '[' is dropped exactly |
| `Driver.TrimPreambleExample` | src/main.rs:42 | "window.YTD.tweets.part0 = " is dropped in front of the array |
| `Driver.NextMonth` | src/main.rs:61-63 | adding one month gives a month in 1..12 whose index is one more. December rolls over to January of the next year |
| `Driver.MonthIndexInjective` | src/main.rs:61-63 | (year, month) to month index is one-to-one on months 1..12 |
| `Driver.BeforeMonthStart` | src/main.rs:53 | a date-time is before the first instant of a month exactly when its own month comes earlier |
| `Driver.FilterByStartMonth` | src/main.rs:47-55 | keeps, in order, exactly the tweets not before 00:00:00 on day 1 of the start month. Each kept tweet occurs as often as in the input, and a dropped one not at all |
| `Driver.FilterByEndMonth` | src/main.rs:56-68 | keeps, in order, exactly the tweets strictly before 00:00:00 on day 1 of the month after the end month. Each kept tweet occurs as often as in the input, and a dropped one not at all |
| `Driver.StartFilterByMonth` | src/main.rs:47-55 | a tweet survives the start filter exactly when it is in the input and its month is the start month or later |
| `Driver.EndFilterByMonth` | src/main.rs:56-68 | a tweet survives the end filter exactly when it is in the input and its month is the end month or earlier |
| `Driver.EndFilterBoundary` | src/main.rs:61-66 | the first and last second of the end month are kept, and the first instant of the next month is dropped |
| `Driver.StartFilterBoundary` | src/main.rs:53 | the first instant of the start month is kept, and the last second of the previous month is dropped |
| `Driver.FiltersCommute` | src/main.rs:76-84 | start-then-end filtering equals end-then-start filtering |
| `Driver.StartFilterIdempotent` | src/main.rs:47-55 | filtering twice by the same start month is filtering once |
| `Driver.EndFilterIdempotent` | src/main.rs:56-68 | filtering twice by the same end month is filtering once |
| `Driver.MonthKey` | src/main.rs:91 | `year * 100 + month`. `Driver.MonthKeyDecodes` and `Driver.MonthKeyInjective` specify it |
| `Driver.MonthKeyDecodes` | src/main.rs:91 | the key `year*100+month` gives back the year by division and the month by remainder |
| `Driver.MonthKeyInjective` | src/main.rs:91 | two date-times have the same key exactly when they share year and month |
| `Driver.WithKey` | src/main.rs:92-95 | the group of one key: the input's tweets of that key in order. `Driver.WithKeySubsequence`, `Driver.WithKeyCounts` and `Driver.WithKeyNonEmpty` specify it |
| `Driver.WithKeySubsequence` | src/main.rs:92-95 | a group keeps the input order: it is a subsequence of the input |
| `Driver.WithKeyCounts` | src/main.rs:92-95 | a group holds each tweet of its key as often as the input does, and no others |
| `Driver.WithKeyNonEmpty` | src/main.rs:93-94 | a key's group is non-empty exactly when some input tweet has that key |
| `Driver.GroupByMonth` | src/main.rs:88-96 | the loop's map has exactly the keys that occur, and each key's group is the input's tweets of that key in order |
| `Driver.GroupingStep` | src/main.rs:92-95 | appending a tweet to its key's group, created empty if missing, keeps the map a grouping of the input with that tweet appended |
| `Driver.GroupingPartitions` | src/main.rs:88-96 | every group is non-empty and in input order. It holds exactly the tweets of its key, and every input tweet is in its own key's group |
| `Driver.GroupingOfNothing` | src/main.rs:88-96 | zero tweets give zero groups |

## Left out

- JSON decoding (`serde_json::from_str`, src/tweet.rs:49) is a foreign library. Records are abstract: each of `created_at`, `full_text` and `in_reply_to_user_id` is absent, null, a string or another value. The `expect` on malformed JSON is not modelled.
- Tweet.ToLocal: the host's zone database (`with_timezone(&Local)`) is replaced by a fixed offset of less than a day, so daylight-saving changes are not modelled.
- TwitterDate.ScanStamp: models only the exact archive layout. chrono's parser is more lenient in ways the archive never uses, and all of these are rejected here. The list is not exhaustive:
  - long and differently cased weekday and month names;
  - one-digit day, hour, minute and second fields, as in "Wed Mar 1 04:12:48 +0000 2023";
  - years with a sign, such as "+2023", or with other than four digits;
  - a leap second (second 60).
- The error kinds `Malformed`, `OutOfRange` and `WeekdayMismatch` are the model's own grouping of chrono's `ParseError` kinds.
- TwitterDate.ParseTwitterDate: on a string with more than one defect, the reported kind can differ from chrono's. The model reads the whole layout before it checks any range. chrono checks some ranges while it reads, so a range error before a later layout error wins there. For example, "Sat Mar 11 04:12:48 +0060 20x3" is `OutOfRange` in chrono and `Malformed` here. Once the layout has been read, the checks come in chrono's order: see `TwitterDate.CheckFields`.
- Tweet.ConvertRecord: a record lacking `created_at` or `full_text` makes the source panic. Here the panic is an error value of the batch.
- Formatter: Rust's `\d` matches every Unicode decimal digit. The scanners accept ASCII '0'..'9' only.
- The regular expressions themselves (the `regex` crate) are not modelled. Each rule is a hand-written leftmost, greedy, non-overlapping scanner.
- The note template (`MonthlyTweetsTemplate`, handlebars, `file!()` path lookup, `process::exit`; src/templates/monthly_tweets.rs:132-166, including `test_get_template_path`) is a foreign library plus file access, so it is not modelled.
- File I/O and logging in `main` and `load_tweets` are not modelled:
  - opening and reading the archive;
  - `clap` argument parsing;
  - creating output files and the `tweets_{yyyymm}.md` path;
  - the warn-and-continue rendering loop (src/main.rs:29-40, 98-125).
- The `YYYY-MM` bound strings are not parsed (src/main.rs:49-50, 58-59). The filters take an integer year and a month in 1..12 instead, so the `expect` on an unparsable bound is not modelled.
- Driver.NextMonth: `checked_add_months` fails only beyond chrono's largest representable date. Years are unbounded here, so that failure is not modelled.
- Driver.GroupByMonth: `HashMap` iteration order is unspecified, so the groups are a `map`. The order in which notes are written is not modelled.
- MonthlyTweets.NewTemplateInput: requires a non-empty group, where the source would panic in `unwrap`. `Driver.GroupingPartitions` proves every group the program builds is non-empty.
- MonthlyTweets.SortInPlace: the library `sort_by` (a merge sort) is replaced by an in-place stable insertion sort. Both are stable, so they give the same result.
- MonthlyTweets.IdText: `%3f` writes the sub-second part. Timestamps of the archive have none, so it is always "000".
- MonthlyTweets.YearText: `%Y` for years outside 0..9999 is written with an explicit sign and at least four digits. Such years can occur: a written year is four digits, but moving to UTC or to the local zone can cross a year end. For example, "Sat Jan 01 00:00:00 +0100 0000" lands at -0001-12-31 23:00 UTC.
- MonthlyTweets.DateTimeTextDecodes and MonthlyTweets.IdTextDecodes cover years 0..9999 only. For other years the stamps carry `YearText`'s signed form, whose sign, value and digit count `YearText` specifies.
- The `i32` and `usize` widths of years and counters are not modelled; integers are unbounded. The `year * 100 + month` key cannot overflow `i32` for any year chrono can represent.
