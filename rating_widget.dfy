/** The ComicRating class of resources/js/rating.js without its DOM: the
    rating fields, the stars' `active` flags, and the outcome of the POST as
    an input. Averages and percentages are real numbers here. */
module RatingWidget {
  import opened Text

  /** What the try block came to: the request threw; it succeeded and the
      rest of the block ran; or it succeeded, its fields were stored, and a
      later step of the block (the display updates, the message or the
      onRatingChange callback) threw. */
  datatype Outcome =
    | Failed
    | Saved(average: real, totalRatings: int, breakdown: Option<map<int, int>>)
    | SavedThenThrew(average: real, totalRatings: int, breakdown: Option<map<int, int>>)

  /** The fields getRating() reports. */
  datatype RatingState = RatingState(userRating: int, averageRating: real, totalRatings: int, breakdown: map<int, int>)

  /** A new instance, before its data is loaded. */
  const Initial := RatingState(0, 0.0, 0, map[])

  /** `response.breakdown || {}`. */
  function BreakdownOrEmpty(breakdown: Option<map<int, int>>): map<int, int>
  {
    if breakdown.Some? then breakdown.value else map[]
  }

  /** submitRating(rating): refused when it repeats the user's rating and
      resubmission is not allowed; otherwise the rating is shown at once and
      kept with the response's figures. The catch block reverts the user's
      rating alone: when the request fails nothing else had changed, and when
      a later step throws the server's figures stay. */
  function Submit(st: RatingState, rating: int, allowResubmit: bool, outcome: Outcome): RatingState
  {
    if rating == st.userRating && !allowResubmit then st
    else match outcome
      case Failed => st
      case Saved(average, total, breakdown) =>
        RatingState(rating, average, total, BreakdownOrEmpty(breakdown))
      case SavedThenThrew(average, total, breakdown) =>
        RatingState(st.userRating, average, total, BreakdownOrEmpty(breakdown))
  }

  /** setRating(r): `Math.max(1, Math.min(5, r))`. */
  function Clamp(rating: int): int
  {
    if rating > 5 then 5 else if rating < 1 then 1 else rating
  }

  /** getBreakdownPercentage(stars): the share of ratings with that many stars, 0 with no ratings. */
  function BreakdownPercentage(st: RatingState, stars: int): real
  {
    var count := if stars in st.breakdown then st.breakdown[stars] else 0;
    if st.totalRatings == 0 then 0.0 else (count as real / st.totalRatings as real) * 100.0
  }

  // ---------------------------------------------------------------- properties

  /** A repeated rating without allowResubmit changes nothing, whatever the server would say. */
  lemma NoResubmit(st: RatingState, outcome: Outcome)
    ensures Submit(st, st.userRating, false, outcome) == st
  {
  }

  /** A failed request leaves every field as it was before the call. */
  lemma FailureReverts(st: RatingState, rating: int, allowResubmit: bool)
    ensures Submit(st, rating, allowResubmit, Failed) == st
  {
  }

  /** A saved rating is the user's rating, and the average and total are the server's. */
  lemma SuccessKeepsResponse(st: RatingState, rating: int, allowResubmit: bool, average: real, total: int,
                             breakdown: Option<map<int, int>>)
    requires rating != st.userRating || allowResubmit
    ensures var r := Submit(st, rating, allowResubmit, Saved(average, total, breakdown));
      r.userRating == rating && r.averageRating == average && r.totalRatings == total &&
      (breakdown.None? ==> r.breakdown == map[])
  {
  }

  /** A step that throws after the response was stored reverts the user's
      rating and nothing else: the figures are those of a successful save. */
  lemma LateThrowRevertsOnlyRating(st: RatingState, rating: int, allowResubmit: bool, average: real, total: int,
                                   breakdown: Option<map<int, int>>)
    requires rating != st.userRating || allowResubmit
    ensures var r := Submit(st, rating, allowResubmit, SavedThenThrew(average, total, breakdown));
      r == Submit(st, rating, allowResubmit, Saved(average, total, breakdown)).(userRating := st.userRating) &&
      r.userRating == st.userRating && r.averageRating == average && r.totalRatings == total
  {
  }

  /** Once a rating is saved, submitting it again is refused. */
  lemma SecondSubmitRefused(st: RatingState, rating: int, response: Outcome, again: Outcome)
    requires response.Saved?
    ensures var once := Submit(st, rating, false, response);
      Submit(once, rating, false, again) == once
  {
  }

  /** setRating keeps the rating in [1, 5], is the identity there, and clamping twice is clamping once. */
  lemma ClampRange(rating: int)
    ensures 1 <= Clamp(rating) <= 5
    ensures Clamp(rating) == rating <==> 1 <= rating <= 5
    ensures Clamp(Clamp(rating)) == Clamp(rating)
  {
  }

  /** With no ratings every percentage is 0; otherwise a count within the
      total gives a percentage within [0, 100]. */
  lemma BreakdownBounds(st: RatingState, stars: int)
    ensures st.totalRatings == 0 ==> BreakdownPercentage(st, stars) == 0.0
    ensures st.totalRatings > 0 && stars in st.breakdown && 0 <= st.breakdown[stars] <= st.totalRatings ==>
      0.0 <= BreakdownPercentage(st, stars) <= 100.0
  {
    if st.totalRatings > 0 && stars in st.breakdown && 0 <= st.breakdown[stars] <= st.totalRatings {
      var c := st.breakdown[stars] as real;
      var t := st.totalRatings as real;
      assert c / t <= 1.0 by {
        assert c <= t;
      }
    }
  }

  // ---------------------------------------------------------------- the widget

  class ComicRating {
    var userRating: int
    var averageRating: real
    var totalRatings: int
    var ratingBreakdown: map<int, int>
    var inputValue: int
    const allowResubmit: bool
    /** Whether each star has the `active` (and `user-rated`) class. */
    const stars: array<bool>

    function State(): RatingState
      reads this
    {
      RatingState(userRating, averageRating, totalRatings, ratingBreakdown)
    }

    /** Every star below the user's rating is lit, and no other. */
    ghost predicate StarsShowRating()
      reads this, stars
    {
      forall i :: 0 <= i < stars.Length ==> stars[i] == (i < userRating)
    }

    constructor(starCount: nat, allowResubmit: bool)
      ensures State() == Initial && this.allowResubmit == allowResubmit
      ensures stars.Length == starCount && fresh(stars)
    {
      userRating := 0;
      averageRating := 0.0;
      totalRatings := 0;
      ratingBreakdown := map[];
      inputValue := 0;
      this.allowResubmit := allowResubmit;
      stars := new bool[starCount](_ => false);
    }

    /** updateStars(): light the first userRating stars and mirror the rating into the input. */
    method UpdateStars()
      modifies stars, this
      ensures State() == old(State()) && StarsShowRating() && inputValue == userRating
    {
      var index := 0;
      while index < stars.Length
        invariant 0 <= index <= stars.Length
        invariant State() == old(State())
        invariant forall i :: 0 <= i < index ==> stars[i] == (i < userRating)
      {
        stars[index] := index < userRating;
        index := index + 1;
      }
      inputValue := userRating;
    }

    /** submitRating(rating), with the awaited request's outcome. */
    method SubmitRating(rating: int, outcome: Outcome)
      modifies stars, this
      ensures State() == Submit(old(State()), rating, allowResubmit, outcome)
      ensures rating == old(userRating) && !allowResubmit ==>
        inputValue == old(inputValue) && stars[..] == old(stars[..])
      ensures rating != old(userRating) || allowResubmit ==> StarsShowRating() && inputValue == userRating
    {
      if rating == userRating && !allowResubmit {
        return;
      }
      var previousRating := userRating;
      userRating := rating;
      UpdateStars();
      match outcome {
        case Saved(average, total, breakdown) =>
          averageRating := average;
          totalRatings := total;
          ratingBreakdown := BreakdownOrEmpty(breakdown);
        case SavedThenThrew(average, total, breakdown) =>
          averageRating := average;
          totalRatings := total;
          ratingBreakdown := BreakdownOrEmpty(breakdown);
          userRating := previousRating;
          UpdateStars();
        case Failed =>
          userRating := previousRating;
          UpdateStars();
      }
    }

    /** setRating(rating): the clamped rating, shown. */
    method SetRating(rating: int)
      modifies stars, this
      ensures State() == old(State()).(userRating := Clamp(rating)) && StarsShowRating()
    {
      userRating := if 1 > (if 5 < rating then 5 else rating) then 1 else (if 5 < rating then 5 else rating);
      UpdateStars();
    }

    /** resetRating(): no rating, no lit star. */
    method ResetRating()
      modifies stars, this
      ensures State() == old(State()).(userRating := 0) && StarsShowRating()
      ensures forall i :: 0 <= i < stars.Length ==> !stars[i]
    {
      userRating := 0;
      UpdateStars();
    }

    method GetBreakdownPercentage(starCount: int) returns (percentage: real)
      ensures percentage == BreakdownPercentage(State(), starCount)
    {
      var count := if starCount in ratingBreakdown then ratingBreakdown[starCount] else 0;
      if totalRatings == 0 {
        return 0.0;
      }
      percentage := (count as real / totalRatings as real) * 100.0;
    }
  }
}
