/** The callback data of the rating buttons (bot.py:60-64) and how the button
    handler takes it apart again (bot.py:299-320). A rating button carries
    `rate_<story id>_<score>`; the handler splits it on every underscore, reads
    the score from the last piece and rejoins the pieces in between into the
    story id, so an id that itself holds underscores survives. */
module Callback {
  import opened PyText

  /** What the handler tells the user when it rejects the data. */
  datatype RateError =
    | TooFewParts   // fewer than three pieces: "неверный формат данных оценки"
    | NotANumber    // `int()` raised ValueError: "неверный формат оценки"
    | OutOfRange    // outside 1..5: "недопустимое значение оценки"

  datatype RateRequest = RateRequest(storyId: string, score: int)

  datatype Parsed = Accepted(request: RateRequest) | Rejected(error: RateError)

  const RatePrefix: string := "rate_"

  /** The handler routes data here when it starts with `rate_`. */
  predicate IsRateData(data: string) {
    |data| >= |RatePrefix| && data[..|RatePrefix|] == RatePrefix
  }

  /** `str(k)` for a score between 0 and 9. */
  function DigitChar(k: int): (c: char)
    requires 0 <= k <= 9
    ensures IsDigit(c) && (c - '0') as int == k
  {
    (('0' as int) + k) as char
  }

  /** `f"rate_{story_id}_{k}"`. */
  function EncodeRate(storyId: string, score: int): (data: string)
    requires 1 <= score <= 5
    ensures IsRateData(data)
  {
    RatePrefix + storyId + "_" + [DigitChar(score)]
  }

  /** The callback data of the five rating buttons, scores 1 to 5 in order. */
  function RatingButtonsData(storyId: string): (ds: seq<string>)
    ensures |ds| == 5
  {
    seq(5, i requires 0 <= i < 5 => EncodeRate(storyId, i + 1))
  }

  /** The piece after the last underscore. */
  function ScorePiece(data: string): string {
    var parts := Split(data, '_');
    parts[|parts| - 1]
  }

  /** The parse at bot.py:299-320: split on `_`, demand three pieces, take the
      last as the score and rejoin the middle ones as the story id; then `int()`
      and the range check. */
  function ParseRate(data: string): Parsed
    requires IsRateData(data)
  {
    var parts := Split(data, '_');
    if |parts| < 3 then Rejected(TooFewParts)
    else
      var storyId := Join(parts[1..|parts| - 1], '_');
      match ParseInt(parts[|parts| - 1])
      case None => Rejected(NotANumber)
      case Some(score) =>
        if score < 1 || score > 5 then Rejected(OutOfRange)
        else Accepted(RateRequest(storyId, score))
  }

  /** `rate_` has no underscore before its own: the split of rate data is
      `rate` followed by the split of what comes after the prefix. */
  lemma SplitRateData(data: string)
    requires IsRateData(data)
    ensures Split(data, '_') == ["rate"] + Split(data[|RatePrefix|..], '_')
  {
    var t := data[|RatePrefix|..];
    assert data == "rate" + ['_'] + t;
    SplitAround("rate", '_', t);
    RateHasNoUnderscore();
    SplitFree("rate", '_');
  }

  lemma RateHasNoUnderscore()
    ensures '_' !in "rate"
  {
    assert "rate" == ['r', 'a', 't', 'e'];
  }

  /** Decoding what a rating button carries gives back its story and score,
      whatever underscores the story id holds. */
  lemma ParseEncode(storyId: string, score: int)
    requires 1 <= score <= 5
    ensures ParseRate(EncodeRate(storyId, score)) == Accepted(RateRequest(storyId, score))
  {
    var d := DigitChar(score);
    var data := EncodeRate(storyId, score);
    var mid := Split(storyId, '_');
    var parts := Split(data, '_');
    EncodedParts(storyId, score, data, parts);
    HeadMiddleLast(parts, "rate", mid, [d]);
    JoinSplit(storyId, '_');
    ParseDigit(d);
    AcceptedParse(data, parts, mid, [d], score);
  }

  /** The pieces of an encoded button: `rate`, the pieces of the id, the digit. */
  lemma EncodedParts(storyId: string, score: int, data: string, parts: seq<string>)
    requires 1 <= score <= 5 && data == EncodeRate(storyId, score) && parts == Split(data, '_')
    ensures parts == ["rate"] + (Split(storyId, '_') + [[DigitChar(score)]])
  {
    SplitRateData(data);
    EncodedRest(storyId, score);
    SplitIdThenDigit(storyId, DigitChar(score));
  }

  /** What follows the prefix of an encoded button. */
  lemma EncodedRest(storyId: string, score: int)
    requires 1 <= score <= 5
    ensures EncodeRate(storyId, score)[|RatePrefix|..] == storyId + ['_'] + [DigitChar(score)]
  {
  }

  /** Splitting an id followed by `_` and a digit. */
  lemma SplitIdThenDigit(storyId: string, d: char)
    requires IsDigit(d)
    ensures Split(storyId + ['_'] + [d], '_') == Split(storyId, '_') + [[d]]
  {
    SplitAround(storyId, '_', [d]);
    SplitFree([d], '_');
  }

  /** The middle and the last element of `[h] + (mid + [last])`. */
  lemma HeadMiddleLast<T>(parts: seq<T>, h: T, mid: seq<T>, last: T)
    requires parts == [h] + (mid + [last])
    ensures |parts| == |mid| + 2 && parts[1..|parts| - 1] == mid && parts[|parts| - 1] == last
  {
  }

  /** The parse accepts data whose pieces are well formed. */
  lemma AcceptedParse(data: string, parts: seq<string>, mid: seq<string>, last: string, score: int)
    requires IsRateData(data) && parts == Split(data, '_') && |parts| >= 3
    requires mid == parts[1..|parts| - 1] && last == parts[|parts| - 1]
    requires ParseInt(last) == Some(score) && 1 <= score <= 5
    ensures ParseRate(data) == Accepted(RateRequest(Join(mid, '_'), score))
  {
  }

  /** The handler rejects the data for too few pieces exactly when no
      underscore follows the `rate_` prefix. */
  lemma TooFewPartsIff(data: string)
    requires IsRateData(data)
    ensures ParseRate(data) == Rejected(TooFewParts) <==> '_' !in data[|RatePrefix|..]
  {
    SplitRateData(data);
    SplitSeveralIff(data[|RatePrefix|..], '_');
  }

  /** Whatever the handler accepts is a score from 1 to 5 and a story id such
      that the data is `rate_<id>_<last piece>`, the last piece holding no
      underscore and reading as that score. */
  lemma ParseSound(data: string, storyId: string, score: int)
    requires IsRateData(data) && ParseRate(data) == Accepted(RateRequest(storyId, score))
    ensures 1 <= score <= 5
    ensures data == RatePrefix + storyId + "_" + ScorePiece(data)
    ensures '_' !in ScorePiece(data)
    ensures ParseInt(ScorePiece(data)) == Some(score)
  {
    var parts := Split(data, '_');
    SplitRateData(data);
    RateDataShape(data, data[|RatePrefix|..], parts);
    SplitPiecesFree(data, '_');
  }

  /** Rate data with at least three pieces is the prefix, the middle pieces
      rejoined, an underscore and the last piece. */
  lemma RateDataShape(data: string, t: string, parts: seq<string>)
    requires IsRateData(data) && t == data[|RatePrefix|..] && parts == Split(data, '_')
    requires parts == ["rate"] + Split(t, '_') && |parts| >= 3
    ensures data == RatePrefix + Join(parts[1..|parts| - 1], '_') + "_" + parts[|parts| - 1]
  {
    var ps := Split(t, '_');
    var mid, last := parts[1..|parts| - 1], parts[|parts| - 1];
    MiddleAndLast(parts, "rate", ps);
    JoinSplit(t, '_');
    JoinLast(ps, mid, last);
    PrefixThenRest(data);
    Regroup(data, RatePrefix, t, Join(mid, '_'), last);
  }

  /** Rate data is the prefix followed by the rest. */
  lemma PrefixThenRest(data: string)
    requires IsRateData(data)
    ensures data == RatePrefix + data[|RatePrefix|..]
  {
  }

  /** Regrouping a concatenation, over strings the solver need not look into. */
  lemma Regroup(data: string, p: string, t: string, a: string, b: string)
    requires data == p + t && t == a + "_" + b
    ensures data == p + a + "_" + b
  {
  }

  /** Joining pieces that end in `last` puts an underscore before it. */
  lemma JoinLast(ps: seq<string>, mid: seq<string>, last: string)
    requires mid != [] && ps == mid + [last]
    ensures Join(ps, '_') == Join(mid, '_') + "_" + last
  {
    JoinAppend(mid, [last], '_');
  }

  /** Dropping the head and the last element of `[h] + ps`. */
  lemma MiddleAndLast<T>(parts: seq<T>, h: T, ps: seq<T>)
    requires parts == [h] + ps && |ps| >= 1
    ensures ps == parts[1..|parts| - 1] + [parts[|parts| - 1]]
  {
    assert parts[1..] == ps;
  }

  /** Each of the five rating buttons decodes to its own score. */
  lemma RatingButtonsDecode(storyId: string)
    ensures forall i :: 0 <= i < 5 ==>
      ParseRate(RatingButtonsData(storyId)[i]) == Accepted(RateRequest(storyId, i + 1))
  {
    forall i | 0 <= i < 5
      ensures ParseRate(RatingButtonsData(storyId)[i]) == Accepted(RateRequest(storyId, i + 1))
    {
      ParseEncode(storyId, i + 1);
    }
  }
}
