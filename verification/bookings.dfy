/** Bookings (`app/actions/bookings.ts`): a client creates a booking with
    an interpreter, which starts out pending; the interpreter then moves it
    on through `updateBookingStatus`. The server checks only who owns the
    booking, not which status it is in: the order pending, then accepted or
    declined, then completed is kept by the buttons the mission card
    (`components/mission-card.tsx`) offers. Also the booking dialog's price
    rule and upload path (`components/booking-dialog.tsx`). */
module Bookings {
  import opened Wrappers
  import opened Text
  import opened Forms
  import opened Numbers

  datatype Status = Pending | Accepted | Declined | Completed | Cancelled

  /** The status as stored. */
  function StatusText(s: Status): string {
    match s
    case Pending => "pending"
    case Accepted => "accepted"
    case Declined => "declined"
    case Completed => "completed"
    case Cancelled => "cancelled"
  }

  /** The form fields copied verbatim into the booking; `None` is null. */
  datatype Details = Details(title: Option<string>, platform: Option<string>, timezone: Option<string>,
                             languages: Option<string>, subjectMatter: Option<string>,
                             description: Option<string>, meetingLink: Option<string>,
                             preparationMaterialsUrl: Option<string>)

  /** A booking row. Start and end are instants (the store keeps their ISO
      text); `price` is `None` when the form's price did not parse. */
  datatype Booking = Booking(clientId: string, interpreterId: Option<string>, details: Details,
                             startTime: int, endTime: int, price: Option<real>,
                             currency: string, status: Status)

  /** The bookings table, by identifier. */
  type Bookings = map<string, Booking>

  /** The message of the `RangeError` `toISOString` throws on an invalid date. */
  const InvalidTimeValue := "Invalid time value"

  /** A nullable form value interpolated into a template literal. */
  function Interpolated(v: Option<string>): string {
    match v
    case None => "null"
    case Some(s) => s
  }

  /** `formData.get("endDate") as string || startDate`. */
  function EndDate(f: FormData): (r: Option<string>)
    ensures Truthy(TextField(f, "endDate")) ==> r == TextField(f, "endDate")
    ensures !Truthy(TextField(f, "endDate")) ==> r == TextField(f, "startDate")
  {
    var endDate := TextField(f, "endDate");
    if Truthy(endDate) then endDate else TextField(f, "startDate")
  }

  function FormDetails(f: FormData): Details {
    Details(TextField(f, "title"), TextField(f, "platform"), TextField(f, "timezone"),
            TextField(f, "languages"), TextField(f, "subjectMatter"), TextField(f, "description"),
            TextField(f, "meetingLink"), TextField(f, "preparationMaterialsUrl"))
  }

  /** `createBooking(formData)`. `parseDate` is `new Date(text)` (`None`
      for an invalid date, on which `toISOString` throws) and `parseFloat`
      is the global of that name (`None` for NaN); `newId` is the identifier
      the store assigns and `dbError` the outcome of the insert. Nothing is
      checked against the interpreter's availability, and an end before the
      start is accepted. */
  function CreateBooking(b: Bookings, user: Option<string>, f: FormData,
                         parseDate: string -> Option<int>, parseFloat: string -> Option<real>,
                         newId: string, dbError: Option<string>): (r: Result<Bookings>)
    requires newId !in b
    ensures user.None? ==> r == Failure(NotAuthenticated)
    ensures r.Success? ==> user.Some? && newId in r.value && r.value.Keys == b.Keys + {newId}
    ensures r.Success? ==> forall id :: id in b ==> r.value[id] == b[id]
    ensures r.Success? ==>
      var created := r.value[newId];
      created.status == Pending && created.clientId == user.value && created.currency == "TND" &&
      created.interpreterId == TextField(f, "interpreterId") && created.details == FormDetails(f) &&
      Some(created.startTime) == parseDate(Interpolated(TextField(f, "startDate")) + "T" + Interpolated(TextField(f, "startTime"))) &&
      Some(created.endTime) == parseDate(Interpolated(EndDate(f)) + "T" + Interpolated(TextField(f, "endTime"))) &&
      created.price == parseFloat(Interpolated(TextField(f, "price")))
    ensures r.Failure? && user.Some? ==> r.error == InvalidTimeValue || Some(r.error) == dbError
    ensures user.Some? &&
            parseDate(Interpolated(TextField(f, "startDate")) + "T" + Interpolated(TextField(f, "startTime"))).Some? &&
            parseDate(Interpolated(EndDate(f)) + "T" + Interpolated(TextField(f, "endTime"))).Some? ==>
      (r.Success? <==> dbError.None?) && (r.Failure? ==> r.error == dbError.value)
  {
    if user.None? then Failure(NotAuthenticated)
    else
      var start := parseDate(Interpolated(TextField(f, "startDate")) + "T" + Interpolated(TextField(f, "startTime")));
      var end := parseDate(Interpolated(EndDate(f)) + "T" + Interpolated(TextField(f, "endTime")));
      if start.None? || end.None? then Failure(InvalidTimeValue)
      else if dbError.Some? then Failure(dbError.value)
      else
        var price := parseFloat(Interpolated(TextField(f, "price")));
        Success(b[newId := Booking(user.value, TextField(f, "interpreterId"), FormDetails(f),
                                   start.value, end.value, price, "TND", Pending)])
  }

  /** Whatever the dates say, a well-formed request is stored: a booking
      ending before it starts is created like any other, pending. */
  lemma CreateAcceptsAnyTimes(b: Bookings, user: string, f: FormData,
                              parseDate: string -> Option<int>, parseFloat: string -> Option<real>, newId: string)
    requires newId !in b
    requires parseDate(Interpolated(TextField(f, "startDate")) + "T" + Interpolated(TextField(f, "startTime"))).Some?
    requires parseDate(Interpolated(EndDate(f)) + "T" + Interpolated(TextField(f, "endTime"))).Some?
    ensures var r := CreateBooking(b, Some(user), f, parseDate, parseFloat, newId, None);
            r.Success? && r.value[newId].status == Pending
  {
  }

  // ---------------------------------------------------------------------
  // updateBookingStatus
  // ---------------------------------------------------------------------

  /** The three statuses the action accepts. */
  datatype Decision = Accept | Decline | Complete

  function Target(d: Decision): Status {
    match d
    case Accept => Accepted
    case Decline => Declined
    case Complete => Completed
  }

  predicate OwnedBy(b: Bookings, id: string, user: string) {
    id in b && b[id].interpreterId == Some(user)
  }

  /** `updateBookingStatus(bookingId, status)`: the update is filtered on
      the booking's identifier and on the caller being its interpreter; when
      no row passes the filter nothing changes and the call still succeeds. */
  function UpdateBookingStatus(b: Bookings, user: Option<string>, id: string, d: Decision,
                               dbError: Option<string>): (r: Result<Bookings>)
    ensures user.None? ==> r == Failure(NotAuthenticated)
    ensures r.Failure? && user.Some? ==> Some(r.error) == dbError
    ensures user.Some? && dbError.None? ==> r.Success?
    ensures r.Success? ==> r.value.Keys == b.Keys
    ensures r.Success? ==> forall other :: other in b && other != id ==> r.value[other] == b[other]
    ensures r.Success? && OwnedBy(b, id, user.value) ==> r.value[id] == b[id].(status := Target(d))
    ensures r.Success? && !OwnedBy(b, id, user.value) ==> r.value == b
  {
    if user.None? then Failure(NotAuthenticated)
    else if dbError.Some? then Failure(dbError.value)
    else if OwnedBy(b, id, user.value) then Success(b[id := b[id].(status := Target(d))])
    else Success(b)
  }

  /** The caller cannot tell an unknown booking from someone else's: both
      calls succeed and leave the table as it was. */
  lemma UnknownAndForeignLookAlike(b: Bookings, user: string, unknown: string, foreign: string, d: Decision)
    requires unknown !in b
    requires foreign in b && b[foreign].interpreterId != Some(user)
    ensures UpdateBookingStatus(b, Some(user), unknown, d, None) == Success(b)
    ensures UpdateBookingStatus(b, Some(user), foreign, d, None) == Success(b)
  {
  }

  /** The server imposes no order on statuses: the interpreter of a booking
      can set any of the three statuses from any status, even reopen a
      completed booking as accepted. */
  lemma NoTransitionGuard(b: Bookings, user: string, id: string, d: Decision)
    requires OwnedBy(b, id, user)
    ensures var r := UpdateBookingStatus(b, Some(user), id, d, None);
            r.Success? && r.value[id].status == Target(d)
  {
  }

  // ---------------------------------------------------------------------
  // The mission card
  // ---------------------------------------------------------------------

  datatype ViewMode = InterpreterView | ClientView

  /** The status buttons the card shows: Accept and Decline to the
      interpreter of a pending booking, Mark as Completed to the interpreter
      of an accepted one, nothing otherwise. */
  function Offered(view: ViewMode, s: Status): (r: set<Decision>)
    ensures Accept in r <==> view == InterpreterView && s == Pending
    ensures Decline in r <==> view == InterpreterView && s == Pending
    ensures Complete in r <==> view == InterpreterView && s == Accepted
  {
    if view == InterpreterView && s == Pending then {Accept, Decline}
    else if view == InterpreterView && s == Accepted then {Complete}
    else {}
  }

  /** A change of status some button of the card can make. */
  ghost predicate UiTransition(s: Status, s': Status) {
    exists view: ViewMode, d: Decision :: d in Offered(view, s) && Target(d) == s'
  }

  /** The buttons allow exactly three moves: pending to accepted, pending to
      declined, accepted to completed. Declined, completed and cancelled
      bookings, and every booking in the client's view, offer none. */
  lemma UiTransitions(s: Status, s': Status)
    ensures UiTransition(s, s') <==>
      (s == Pending && (s' == Accepted || s' == Declined)) || (s == Accepted && s' == Completed)
  {
    forall view: ViewMode, d: Decision | d in Offered(view, s)
      ensures (s == Pending && (Target(d) == Accepted || Target(d) == Declined)) || (s == Accepted && Target(d) == Completed)
    {
    }
    if s == Pending && s' == Accepted {
      assert Accept in Offered(InterpreterView, s) && Target(Accept) == s';
    } else if s == Pending && s' == Declined {
      assert Decline in Offered(InterpreterView, s) && Target(Decline) == s';
    } else if s == Accepted && s' == Completed {
      assert Complete in Offered(InterpreterView, s) && Target(Complete) == s';
    }
  }

  /** A button press on the card, carried through the server action, moves
      the booking along one of the three allowed moves. */
  lemma CardFollowsLifecycle(b: Bookings, user: string, id: string, d: Decision)
    requires OwnedBy(b, id, user)
    requires d in Offered(InterpreterView, b[id].status)
    ensures var r := UpdateBookingStatus(b, Some(user), id, d, None);
            r.Success? && UiTransition(b[id].status, r.value[id].status)
  {
    var r := UpdateBookingStatus(b, Some(user), id, d, None);
    assert Target(d) == r.value[id].status;
  }

  /** The footer under a booking concerning reviews. */
  datatype ReviewFooter = ReviewButton(reviewee: Option<string>) | ReviewSubmitted | NoReviewFooter

  /** The party a review from this view is about: the client when the
      interpreter is looking, the interpreter when the client is. */
  function Reviewee(view: ViewMode, booking: Booking): Option<string> {
    match view
    case InterpreterView => Some(booking.clientId)
    case ClientView => booking.interpreterId
  }

  /** A completed booking offers a review until one has been submitted, and
      then says so; other bookings show neither. */
  function ReviewFooterOf(view: ViewMode, booking: Booking, hasReviewed: bool): (r: ReviewFooter)
    ensures r.ReviewButton? <==> booking.status == Completed && !hasReviewed
    ensures r.ReviewSubmitted? <==> booking.status == Completed && hasReviewed
    ensures r.ReviewButton? ==> r.reviewee == Reviewee(view, booking)
  {
    if booking.status != Completed then NoReviewFooter
    else if hasReviewed then ReviewSubmitted
    else ReviewButton(Reviewee(view, booking))
  }

  /** The viewer is never asked to review themselves: in either view the
      reviewee is the other party of a booking between two people. */
  lemma RevieweeIsOtherParty(booking: Booking, viewer: string)
    requires booking.interpreterId != Some(booking.clientId)
    ensures viewer == booking.clientId ==> Reviewee(ClientView, booking) != Some(viewer)
    ensures booking.interpreterId == Some(viewer) ==> Reviewee(InterpreterView, booking) != Some(viewer)
  {
  }

  /** `s.charAt(0).toUpperCase() + s.slice(1)`. */
  function Capitalize(s: string): (r: string)
    ensures |r| == |s|
    ensures |s| > 0 ==> r[0] == UpperChar(s[0]) && r[1..] == s[1..]
  {
    if |s| == 0 then "" else [UpperChar(s[0])] + s[1..]
  }

  /** The badge of a booking. */
  function Badge(s: Status): string {
    Capitalize(StatusText(s))
  }

  /** The badges read Pending, Accepted, Declined, Completed and Cancelled:
      one label per status. */
  lemma BadgeLabels()
    ensures Badge(Pending) == "Pending" && Badge(Accepted) == "Accepted" && Badge(Declined) == "Declined"
    ensures Badge(Completed) == "Completed" && Badge(Cancelled) == "Cancelled"
    ensures forall s, s' :: Badge(s) == Badge(s') ==> s == s'
  {
    BadgeStart(Pending);
    BadgeStart(Accepted);
    BadgeStart(Declined);
    BadgeStart(Completed);
    BadgeStart(Cancelled);
    forall s, s' | Badge(s) == Badge(s')
      ensures s == s'
    {
      BadgeStart(s);
      BadgeStart(s');
    }
  }

  /** The label of each badge, and its first two letters, which tell the
      statuses apart. */
  lemma BadgeStart(s: Status)
    ensures Badge(s) == match s
      case Pending => "Pending" case Accepted => "Accepted" case Declined => "Declined"
      case Completed => "Completed" case Cancelled => "Cancelled"
    ensures |Badge(s)| >= 2
    ensures Badge(s)[..2] == match s
      case Pending => "Pe" case Accepted => "Ac" case Declined => "De"
      case Completed => "Co" case Cancelled => "Ca"
  {
    match s
    case Pending => assert Badge(s) == "Pending";
    case Accepted => assert Badge(s) == "Accepted";
    case Declined => assert Badge(s) == "Declined";
    case Completed => assert Badge(s) == "Completed";
    case Cancelled => assert Badge(s) == "Cancelled";
  }

  // ---------------------------------------------------------------------
  // The booking dialog
  // ---------------------------------------------------------------------

  /** `hourlyRate || 0`: an absent, zero or NaN rate counts as zero. */
  function RateOrZero(hourlyRate: Option<real>): real {
    hourlyRate.GetOr(0.0)
  }

  /** The price the dialog submits. The end time is combined with the
      start date; times are minutes from the start date's midnight, `None`
      for an empty field. A positive duration is charged pro rata, rounded
      to cents; otherwise, and when a field is missing, one hour's rate. */
  function DialogPrice(hasStartDate: bool, startTime: Option<int>, endTime: Option<int>,
                       hourlyRate: Option<real>): (r: real)
    ensures RateOrZero(hourlyRate) >= 0.0 ==> r >= 0.0
  {
    var rate := RateOrZero(hourlyRate);
    if hasStartDate && startTime.Some? && endTime.Some? then
      var durationHours := (endTime.value - startTime.value) as real / 60.0;
      if durationHours > 0.0 then ToFixed2(durationHours * rate) else rate
    else rate
  }

  /** A positive duration costs its length in hours times the rate,
      rounded to a whole number of cents: within half a cent, a tie going
      away from zero. */
  lemma PriceIsProRata(startTime: int, endTime: int, hourlyRate: Option<real>)
    requires startTime < endTime
    ensures var exact := (endTime - startTime) as real / 60.0 * RateOrZero(hourlyRate);
            var price := DialogPrice(true, Some(startTime), Some(endTime), hourlyRate);
            && (price * 100.0).Floor as real == price * 100.0
            && -0.005 <= price - exact <= 0.005
            && (price - exact == 0.005 ==> exact >= 0.0)
            && (exact - price == 0.005 ==> exact < 0.0)
  {
  }

  /** An end at or before the start is charged one full hour, not nothing:
      so is a request missing its date or a time. */
  lemma PriceFallsBackToOneHour(hasStartDate: bool, startTime: Option<int>, endTime: Option<int>,
                                hourlyRate: Option<real>)
    requires !hasStartDate || startTime.None? || endTime.None? || endTime.value <= startTime.value
    ensures DialogPrice(hasStartDate, startTime, endTime, hourlyRate) == RateOrZero(hourlyRate)
  {
  }

  /** A consequence of the fallback: at a positive rate, an empty slot (end
      equal to start) costs more than a half-hour booking, for any rate
      above one cent an hour. */
  lemma PriceNotMonotone(rate: real, start: int)
    requires rate > 0.01
    ensures DialogPrice(true, Some(start), Some(start), Some(rate))
          > DialogPrice(true, Some(start), Some(start + 30), Some(rate))
  {
  }

  /** `file.name.split('.').pop()`: the file's extension, or its whole name
      when it has no dot. */
  function Extension(name: string): (r: string)
    ensures '.' !in r
    ensures r == AfterLast(name, '.')
  {
    var parts := Split(name, '.');
    SplitLastPiece(name, '.');
    parts[|parts| - 1]
  }

  /** The storage path of the preparation material:
      `${userId}/${Math.random()}.${extension}`. */
  function MaterialPath(userId: string, random: string, fileName: string): string {
    userId + "/" + random + "." + Extension(fileName)
  }

  /** The material lands in the uploader's own folder, and a name without
      a dot is kept whole as the extension. */
  lemma MaterialPathShape(userId: string, random: string, fileName: string)
    ensures '/' !in userId ==> BeforeFirst(MaterialPath(userId, random, fileName), '/') == userId
    ensures '.' !in fileName ==> EndsWith(MaterialPath(userId, random, fileName), "." + fileName)
  {
    if '/' !in userId {
      MaterialPathFolder(userId, random, fileName);
    }
    if '.' !in fileName {
      MaterialPathExtension(userId, random, fileName);
    }
  }

  lemma MaterialPathFolder(userId: string, random: string, fileName: string)
    requires '/' !in userId
    ensures BeforeFirst(MaterialPath(userId, random, fileName), '/') == userId
  {
    PathFolder(userId, random, Extension(fileName));
  }

  lemma PathFolder(userId: string, random: string, ext: string)
    requires '/' !in userId
    ensures BeforeFirst(userId + "/" + random + "." + ext, '/') == userId
  {
    var rest := "/" + random + "." + ext;
    assert userId + "/" + random + "." + ext == userId + rest;
    BeforeFirstOfConcat(userId, rest, '/');
  }

  lemma MaterialPathExtension(userId: string, random: string, fileName: string)
    requires '.' !in fileName
    ensures EndsWith(MaterialPath(userId, random, fileName), "." + fileName)
  {
    ExtensionOfDotFree(fileName);
    PathExtension(userId + "/" + random, fileName);
  }

  lemma ExtensionOfDotFree(name: string)
    requires '.' !in name
    ensures Extension(name) == name
  {
    SplitWithoutSeparator(name, '.');
  }

  lemma PathExtension(prefix: string, ext: string)
    ensures EndsWith(prefix + "." + ext, "." + ext)
  {
    var r := prefix + "." + ext;
    assert r == prefix + ("." + ext);
    assert r[|r| - |"." + ext|..] == "." + ext;
  }
}
