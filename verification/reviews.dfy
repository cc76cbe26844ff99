/** Reviews (`app/actions/reviews.ts`, `lib/reviews.ts`): after a completed
    booking each party may review the other once. The store holds a unique
    index on (booking, reviewer), whose violation (code 23505) the action
    reports with its own message. Also the rating statistics shown on an
    interpreter's profile. */
module Reviews {
  import opened Wrappers
  import opened Text
  import opened Seqs
  import opened Forms
  import opened Numbers
  import Bookings

  datatype Review = Review(id: string, bookingId: string, reviewerId: string, revieweeId: string,
                           rating: int, comment: Option<string>)

  type ReviewTable = seq<Review>

  const MissingFields := "Missing required fields"
  const AlreadyReviewed := "You have already reviewed this booking"

  predicate SameKey(a: Review, bookingId: string, reviewerId: string) {
    a.bookingId == bookingId && a.reviewerId == reviewerId
  }

  predicate HasReview(t: ReviewTable, bookingId: string, reviewerId: string) {
    exists r :: r in t && SameKey(r, bookingId, reviewerId)
  }

  /** The unique index: at most one review per booking and reviewer. */
  ghost predicate OneReviewPerKey(t: ReviewTable) {
    forall i, j :: 0 <= i < j < |t| ==> !SameKey(t[j], t[i].bookingId, t[i].reviewerId)
  }

  /** `!rating` after `parseInt`: NaN and zero both fail the check. */
  predicate ValidRating(rating: Option<int>) {
    rating.Some? && rating.value != 0
  }

  /** The booking, the reviewee and a rating are all given. */
  predicate RequiredFieldsPresent(f: FormData) {
    Truthy(TextField(f, "bookingId")) && Truthy(TextField(f, "revieweeId")) &&
    ValidRating(ParseIntField(TextField(f, "rating")))
  }

  /** `createReview(formData)`: the caller reviews the booking's other
      party. `dbError` is the outcome of the insert for a reason other than
      the unique index. */
  function CreateReview(t: ReviewTable, user: Option<string>, f: FormData, newId: string,
                        dbError: Option<string>): (r: Result<ReviewTable>)
    ensures user.None? ==> r == Failure(NotAuthenticated)
    ensures user.Some? && !RequiredFieldsPresent(f) ==> r == Failure(MissingFields)
    ensures r.Success? ==>
      var review := Review(newId, TextField(f, "bookingId").value, user.value, TextField(f, "revieweeId").value,
                           ParseIntField(TextField(f, "rating")).value, TextField(f, "comment"));
      r.value == t + [review] && !HasReview(t, review.bookingId, user.value)
    ensures r.Failure? && user.Some? && HasReview(t, TextField(f, "bookingId").GetOr(""), user.value) ==>
      r.error == AlreadyReviewed || r.error == MissingFields
    ensures user.Some? && RequiredFieldsPresent(f) && !HasReview(t, TextField(f, "bookingId").value, user.value) ==>
      (r.Success? <==> dbError.None?) &&
      (r.Failure? ==> r.error == dbError.value)
  {
    if user.None? then Failure(NotAuthenticated)
    else
      var bookingId := TextField(f, "bookingId");
      var revieweeId := TextField(f, "revieweeId");
      var rating := ParseIntField(TextField(f, "rating"));
      if !RequiredFieldsPresent(f) then Failure(MissingFields)
      else if HasReview(t, bookingId.value, user.value) then Failure(AlreadyReviewed)
      else if dbError.Some? then Failure(dbError.value)
      else Success(t + [Review(newId, bookingId.value, user.value, revieweeId.value, rating.value, TextField(f, "comment"))])
  }

  /** The first review of a booking by a reviewer stands: a second attempt
      is refused with its own message whatever it carries. */
  lemma SecondReviewRefused(t: ReviewTable, user: string, f: FormData, newId: string, dbError: Option<string>)
    requires RequiredFieldsPresent(f) && HasReview(t, TextField(f, "bookingId").value, user)
    ensures CreateReview(t, Some(user), f, newId, dbError) == Failure(AlreadyReviewed)
  {
  }

  /** The rating is stored as parsed: any non-zero integer, out of the
      five-star range or negative, is accepted. */
  lemma RatingNotRangeChecked(t: ReviewTable, user: string, bookingId: string, revieweeId: string, newId: string,
                              rating: int)
    requires bookingId != "" && revieweeId != "" && !HasReview(t, bookingId, user) && rating != 0
    ensures var f := map["bookingId" := Text(bookingId), "revieweeId" := Text(revieweeId),
                         "rating" := Text(IntToString(rating))];
            var r := CreateReview(t, Some(user), f, newId, None);
            r.Success? && r.value[|t|].rating == rating
  {
    ParseIntAutoRoundTrip(rating);
    RatingStoredAsParsed(t, user, bookingId, revieweeId, newId, IntToString(rating), rating);
  }

  /** Whatever non-zero number the rating text parses to is the rating stored. */
  lemma RatingStoredAsParsed(t: ReviewTable, user: string, bookingId: string, revieweeId: string, newId: string,
                             text: string, rating: int)
    requires bookingId != "" && revieweeId != "" && !HasReview(t, bookingId, user)
    requires ParseIntAuto(text) == Some(rating) && rating != 0
    ensures var f := map["bookingId" := Text(bookingId), "revieweeId" := Text(revieweeId), "rating" := Text(text)];
            var r := CreateReview(t, Some(user), f, newId, None);
            r.Success? && r.value[|t|].rating == rating
  {
    var f := map["bookingId" := Text(bookingId), "revieweeId" := Text(revieweeId), "rating" := Text(text)];
    assert TextField(f, "bookingId") == Some(bookingId) && TextField(f, "revieweeId") == Some(revieweeId);
    assert TextField(f, "rating") == Some(text);
    assert RequiredFieldsPresent(f);
    var r := CreateReview(t, Some(user), f, newId, None);
    assert r.Success?;
    assert r.value[|t|] == Review(newId, bookingId, user, revieweeId, rating, TextField(f, "comment"));
  }

  /** A rating written as "0x" and hexadecimal digits is read in base 16,
      as `parseInt` without a radix does. */
  lemma HexRatingAccepted(t: ReviewTable, user: string, bookingId: string, revieweeId: string, newId: string,
                          hex: string)
    requires bookingId != "" && revieweeId != "" && !HasReview(t, bookingId, user)
    requires |hex| > 0 && AllHexDigits(hex) && HexDigitsValue(hex) != 0
    ensures var f := map["bookingId" := Text(bookingId), "revieweeId" := Text(revieweeId),
                         "rating" := Text("0x" + hex)];
            var r := CreateReview(t, Some(user), f, newId, None);
            r.Success? && r.value[|t|].rating == HexDigitsValue(hex)
  {
    ParseIntAutoOfHex(hex);
    RatingStoredAsParsed(t, user, bookingId, revieweeId, newId, "0x" + hex, HexDigitsValue(hex));
  }

  /** Creating reviews keeps the unique index satisfied. */
  lemma CreateKeepsOneReviewPerKey(t: ReviewTable, user: Option<string>, f: FormData, newId: string,
                                   dbError: Option<string>)
    requires OneReviewPerKey(t)
    ensures var r := CreateReview(t, user, f, newId, dbError);
            r.Success? ==> OneReviewPerKey(r.value)
  {
    var r := CreateReview(t, user, f, newId, dbError);
    if r.Success? {
      var added := r.value[|t|];
      forall i, j | 0 <= i < j < |r.value|
        ensures !SameKey(r.value[j], r.value[i].bookingId, r.value[i].reviewerId)
      {
        assert r.value[i] == t[i];
        if j < |t| {
          assert r.value[j] == t[j];
        } else {
          assert t[i] in t;
        }
      }
    }
  }

  /** `getReview(bookingId, reviewerId)`: `.single()` yields the row when
      exactly one matches and no data otherwise. `readFailed` is a failure
      of the read itself, which is logged and also yields no data. */
  function GetReview(t: ReviewTable, bookingId: string, reviewerId: string, readFailed: bool): (r: Option<Review>)
    ensures readFailed ==> r.None?
    ensures r.Some? ==> r.value in t && SameKey(r.value, bookingId, reviewerId)
    ensures r.None? && !readFailed && OneReviewPerKey(t) ==> !HasReview(t, bookingId, reviewerId)
  {
    var matches := Filter(t, (x: Review) => SameKey(x, bookingId, reviewerId));
    if readFailed then None
    else if |matches| == 1 then Some(matches[0])
    else
      MatchesAtMostOne(t, bookingId, reviewerId);
      None
  }

  lemma {:induction false} MatchesAtMostOne(t: ReviewTable, bookingId: string, reviewerId: string)
    ensures OneReviewPerKey(t) && HasReview(t, bookingId, reviewerId) ==>
      |Filter(t, (x: Review) => SameKey(x, bookingId, reviewerId))| == 1
  {
    var p := (x: Review) => SameKey(x, bookingId, reviewerId);
    if |t| > 0 && OneReviewPerKey(t) && HasReview(t, bookingId, reviewerId) {
      var rest := t[1..];
      assert OneReviewPerKey(rest) by {
        forall i, j | 0 <= i < j < |rest|
          ensures !SameKey(rest[j], rest[i].bookingId, rest[i].reviewerId)
        {
          assert rest[i] == t[i + 1] && rest[j] == t[j + 1];
        }
      }
      if p(t[0]) {
        forall k | 0 <= k < |rest|
          ensures !p(rest[k])
        {
          assert rest[k] == t[k + 1];
        }
        FilterNone(rest, p);
      } else {
        var x :| x in t && SameKey(x, bookingId, reviewerId);
        assert x in rest;
        MatchesAtMostOne(rest, bookingId, reviewerId);
      }
    }
  }

  /** A failed read hides a review that exists: the completed mission
      offers the review button again, and the review it leads to is
      refused as already given. */
  lemma FailedReadOffersReviewAgain(t: ReviewTable, user: string, f: FormData, newId: string,
                                    dbError: Option<string>, view: Bookings.ViewMode, booking: Bookings.Booking)
    requires RequiredFieldsPresent(f) && HasReview(t, TextField(f, "bookingId").value, user)
    requires booking.status == Bookings.Completed
    ensures var found := GetReview(t, TextField(f, "bookingId").value, user, true);
            Bookings.ReviewFooterOf(view, booking, found.Some?).ReviewButton?
    ensures CreateReview(t, Some(user), f, newId, dbError) == Failure(AlreadyReviewed)
  {
    SecondReviewRefused(t, user, f, newId, dbError);
  }

  /** What was written can be read back: after a review is created, looking
      it up by booking and reviewer finds it, so the mission card shows
      "Review Submitted" rather than a review button. */
  lemma CreatedReviewIsFound(t: ReviewTable, user: string, f: FormData, newId: string,
                             view: Bookings.ViewMode, booking: Bookings.Booking)
    requires OneReviewPerKey(t)
    requires booking.status == Bookings.Completed
    ensures var r := CreateReview(t, Some(user), f, newId, None);
            r.Success? ==>
              var found := GetReview(r.value, TextField(f, "bookingId").value, user, false);
              found == Some(r.value[|t|]) &&
              Bookings.ReviewFooterOf(view, booking, found.Some?) == Bookings.ReviewSubmitted
  {
    var r := CreateReview(t, Some(user), f, newId, None);
    if r.Success? {
      var b := TextField(f, "bookingId").value;
      CreateKeepsOneReviewPerKey(t, Some(user), f, newId, None);
      var p := (x: Review) => SameKey(x, b, user);
      FilterConcat(t, [r.value[|t|]], p);
      forall k | 0 <= k < |t|
        ensures !p(t[k])
      {
        assert t[k] in t;
      }
      FilterNone(t, p);
      assert r.value == t + [r.value[|t|]];
    }
  }

  // ---------------------------------------------------------------------
  // Rating statistics
  // ---------------------------------------------------------------------

  function Sum(ratings: seq<int>): int {
    if |ratings| == 0 then 0 else ratings[0] + Sum(ratings[1..])
  }

  function Mean(xs: seq<int>): real
    requires xs != []
  {
    Sum(xs) as real / |xs| as real
  }

  /** A total between n*lo and n*hi makes a mean between lo and hi. */
  lemma MeanBetween(total: int, n: nat, lo: int, hi: int)
    requires n > 0 && lo * n <= total <= hi * n
    ensures lo as real <= total as real / n as real <= hi as real
  {
    var m := total as real / n as real;
    assert m * n as real == total as real;
  }

  datatype Stats = Stats(averageRating: real, totalReviews: nat)

  /** `calculateReviewStats(reviews)`: no reviews (or none loaded) give
      zero and zero; otherwise the mean rating to one decimal, and the
      count. */
  function CalculateReviewStats(ratings: Option<seq<int>>): (r: Stats)
    ensures ratings.None? || ratings.value == [] ==> r == Stats(0.0, 0)
    ensures ratings.Some? ==> r.totalReviews == |ratings.value|
    ensures ratings.Some? && ratings.value != [] ==>
      var mean := Mean(ratings.value);
      && (r.averageRating * 10.0).Floor as real == r.averageRating * 10.0
      && -0.05 <= r.averageRating - mean <= 0.05
      && (r.averageRating - mean == 0.05 ==> mean >= 0.0)
      && (mean - r.averageRating == 0.05 ==> mean < 0.0)
  {
    if ratings.None? || |ratings.value| == 0 then Stats(0.0, 0)
    else
      var xs := ratings.value;
      Stats(ToFixed1(Mean(xs)), |xs|)
  }

  lemma {:induction false} SumBounds(xs: seq<int>, lo: int, hi: int)
    requires forall k :: 0 <= k < |xs| ==> lo <= xs[k] <= hi
    ensures lo * |xs| <= Sum(xs) <= hi * |xs|
  {
    if |xs| > 0 {
      SumBounds(xs[1..], lo, hi);
    }
  }

  /** Ratings on the five-star scale average to a value on that scale. */
  lemma AverageWithinScale(xs: seq<int>)
    requires xs != []
    requires forall k :: 0 <= k < |xs| ==> 1 <= xs[k] <= 5
    ensures 1.0 <= CalculateReviewStats(Some(xs)).averageRating <= 5.0
  {
    SumBounds(xs, 1, 5);
    MeanBetween(Sum(xs), |xs|, 1, 5);
    ToFixed1Within(Mean(xs), 1, 5);
  }

  lemma {:induction false} SumConcat(xs: seq<int>, ys: seq<int>)
    ensures Sum(xs + ys) == Sum(xs) + Sum(ys)
  {
    if |xs| > 0 {
      assert (xs + ys)[1..] == xs[1..] + ys;
      SumConcat(xs[1..], ys);
    } else {
      assert xs + ys == ys;
    }
  }

  /** Taking out the element at `i` takes its value out of the sum. */
  lemma {:induction false} SumRemove(ys: seq<int>, i: nat)
    requires i < |ys|
    ensures Sum(ys) == ys[i] + Sum(ys[..i] + ys[i + 1..])
  {
    var r := ys[..i] + ys[i + 1..];
    if i == 0 {
      assert r == ys[1..];
    } else {
      SumRemove(ys[1..], i - 1);
      assert r[0] == ys[0] && r[1..] == ys[1..][..i - 1] + ys[1..][i..];
    }
  }

  lemma MultisetRemove(ys: seq<int>, i: nat)
    requires i < |ys|
    ensures multiset(ys[..i] + ys[i + 1..]) == multiset(ys) - multiset{ys[i]}
  {
    var a, b := ys[..i], ys[i + 1..];
    assert ys == a + ([ys[i]] + b);
    assert multiset(ys) == multiset(a) + (multiset{ys[i]} + multiset(b));
  }

  /** The sum depends only on which ratings there are, not their order. */
  lemma {:induction false} SumOfPermutation(xs: seq<int>, ys: seq<int>)
    requires multiset(xs) == multiset(ys)
    ensures Sum(xs) == Sum(ys)
    decreases |xs|
  {
    if |xs| > 0 {
      var i := PositionIn(ys, xs[0]);
      var rest := ys[..i] + ys[i + 1..];
      MultisetOfTails(xs, ys, i);
      SumOfPermutation(xs[1..], rest);
      SumRemove(ys, i);
    } else {
      assert |ys| == |multiset(ys)|;
    }
  }

  /** Taking the same value out of two permutations leaves permutations. */
  lemma MultisetOfTails(xs: seq<int>, ys: seq<int>, i: nat)
    requires multiset(xs) == multiset(ys) && |xs| > 0
    requires i < |ys| && ys[i] == xs[0]
    ensures multiset(xs[1..]) == multiset(ys[..i] + ys[i + 1..])
  {
    MultisetRemove(ys, i);
    assert multiset(xs[1..]) == multiset(xs) - multiset{xs[0]} by {
      assert xs == [xs[0]] + xs[1..];
    }
  }

  function PositionIn(ys: seq<int>, x: int): (i: nat)
    requires x in multiset(ys)
    ensures i < |ys| && ys[i] == x
  {
    if ys[0] == x then 0 else
      assert x in multiset(ys[1..]) by {
        assert ys == [ys[0]] + ys[1..];
      }
      1 + PositionIn(ys[1..], x)
  }

  /** The statistics do not depend on the order the reviews are listed in. */
  lemma StatsIgnoreOrder(xs: seq<int>, ys: seq<int>)
    requires multiset(xs) == multiset(ys)
    ensures CalculateReviewStats(Some(xs)) == CalculateReviewStats(Some(ys))
  {
    SumOfPermutation(xs, ys);
    assert |xs| == |multiset(xs)| == |multiset(ys)| == |ys|;
  }
}
