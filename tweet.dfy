/** Posts of the archive: the `Tweet` value and the fail-fast conversion of the archive's records. */
module Tweet {
  import opened Wrappers
  import opened Sequences
  import opened Decimal
  import opened Calendar
  import opened TwitterDate

  // ---------------------------------------------------------------------------
  // Tweets
  // ---------------------------------------------------------------------------

  /** The host's local zone, fixed here as an offset east of UTC of less than a day. */
  type Zone = z: int | -SecondsPerDay < z < SecondsPerDay

  /** A post: creation time on the local wall clock, body text and reply marker. */
  datatype Tweet = Tweet(createdAt: ValidDateTime, fullText: string, isReply: bool)

  /** `with_timezone(&Local)`: the same instant on the local wall clock. */
  function ToLocal(utc: ValidDateTime, zone: Zone): (r: ValidDateTime)
    ensures Seconds(r) == Seconds(utc) + zone
  {
    Shift(utc, zone)
  }

  /** `Tweet::new`: parses the timestamp and stores text and reply flag unchanged. */
  function NewTweet(createdAt: string, fullText: string, isReply: bool, zone: Zone): (r: Result<Tweet, DateError>)
    ensures r.Success? <==> ParseTwitterDate(createdAt).Success?
    ensures r.Failure? ==> r.error == ParseTwitterDate(createdAt).error
    ensures r.Success? ==>
      && r.value.fullText == fullText
      && r.value.isReply == isReply
      && Seconds(r.value.createdAt) == Seconds(ParseTwitterDate(createdAt).value) + zone
  {
    match ParseTwitterDate(createdAt)
    case Failure(e) => Failure(e)
    case Success(utc) => Success(Tweet(ToLocal(utc, zone), fullText, isReply))
  }

  /** `is_retweet`: the body starts with the re-share marker "RT @". */
  predicate IsRetweet(t: Tweet)
    ensures IsRetweet(t) <==> |t.fullText| >= 4 && t.fullText[..4] == "RT @"
  {
    StartsWith(t.fullText, "RT @")
  }

  // ---------------------------------------------------------------------------
  // Records of the archive and the batch conversion
  // ---------------------------------------------------------------------------

  /** What looking up a key of a decoded JSON object gives. */
  datatype JsonField = Absent | Null | Str(text: string) | OtherValue

  /** The three fields of a record's `tweet` object that the program reads. */
  datatype RawRecord = RawRecord(createdAt: JsonField, fullText: JsonField, inReplyToUserId: JsonField)

  /** Why a record cannot become a tweet. */
  datatype RecordError =
    | MissingCreatedAt       // `created_at` is not a string
    | MissingFullText        // `full_text` is not a string
    | BadDate(reason: DateError)

  /** `Value::is_null`: a missing key reads as null too. */
  predicate IsNull(f: JsonField) {
    f.Absent? || f.Null?
  }

  /** One record to one tweet, checking `created_at`, then `full_text`, then the timestamp. */
  function ConvertRecord(rec: RawRecord, zone: Zone): (r: Result<Tweet, RecordError>)
    ensures r.Success? <==>
      rec.createdAt.Str? && rec.fullText.Str? && ParseTwitterDate(rec.createdAt.text).Success?
    ensures !rec.createdAt.Str? ==> r == Failure(MissingCreatedAt)
    ensures rec.createdAt.Str? && !rec.fullText.Str? ==> r == Failure(MissingFullText)
    ensures rec.createdAt.Str? && rec.fullText.Str? && ParseTwitterDate(rec.createdAt.text).Failure? ==>
      r == Failure(BadDate(ParseTwitterDate(rec.createdAt.text).error))
    ensures r.Success? ==>
      && r.value.fullText == rec.fullText.text
      && (r.value.isReply <==> !IsNull(rec.inReplyToUserId))
      && Seconds(r.value.createdAt) == Seconds(ParseTwitterDate(rec.createdAt.text).value) + zone
  {
    if !rec.createdAt.Str? then Failure(MissingCreatedAt)
    else if !rec.fullText.Str? then Failure(MissingFullText)
    else match NewTweet(rec.createdAt.text, rec.fullText.text, !IsNull(rec.inReplyToUserId), zone)
      case Failure(e) => Failure(BadDate(e))
      case Success(t) => Success(t)
  }

  /**
   * `iter().map(f).collect::<Result<Vec<_>, _>>()`: every element maps to a value, in
   * order, or the result is the error of the first element that does not.
   */
  function Collect<A, B, E>(xs: seq<A>, f: A -> Result<B, E>): (r: Result<seq<B>, E>)
    ensures r.Success? <==> forall i :: 0 <= i < |xs| ==> f(xs[i]).Success?
    ensures r.Success? ==> |r.value| == |xs| && forall i :: 0 <= i < |xs| ==> f(xs[i]) == Success(r.value[i])
    ensures r.Failure? ==>
      exists i :: 0 <= i < |xs| && f(xs[i]) == Failure(r.error) && forall j :: 0 <= j < i ==> f(xs[j]).Success?
    decreases |xs|
  {
    if |xs| == 0 then Success([])
    else
      var head := f(xs[0]);
      if head.Failure? then
        assert f(xs[0]) == Failure(head.error);
        Failure(head.error)
      else
        var rest := Collect(xs[1..], f);
        assert forall i :: 1 <= i < |xs| ==> xs[i] == xs[1..][i - 1];
        if rest.Failure? then
          ghost var i :| 0 <= i < |xs| - 1 && f(xs[1..][i]) == Failure(rest.error)
            && forall j :: 0 <= j < i ==> f(xs[1..][j]).Success?;
          assert f(xs[i + 1]) == Failure(rest.error);
          Failure(rest.error)
        else
          Success([head.value] + rest.value)
  }

  /**
   * `parse_tweets` after JSON decoding: all records convert, in order, or the batch fails
   * with the error of the first record that does not.
   */
  function ParseTweets(records: seq<RawRecord>, zone: Zone): (r: Result<seq<Tweet>, RecordError>)
    ensures r.Success? <==> forall i :: 0 <= i < |records| ==> ConvertRecord(records[i], zone).Success?
    ensures r.Success? ==>
      && |r.value| == |records|
      && forall i :: 0 <= i < |records| ==> ConvertRecord(records[i], zone) == Success(r.value[i])
    ensures r.Failure? ==>
      exists i :: 0 <= i < |records| && ConvertRecord(records[i], zone) == Failure(r.error)
        && forall j :: 0 <= j < i ==> ConvertRecord(records[j], zone).Success?
  {
    Collect(records, rec => ConvertRecord(rec, zone))
  }
}
