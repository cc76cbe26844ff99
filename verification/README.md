# Tutlayt marketplace core, modelled in Dafny

Tutlayt connects client companies with interpreters. This project models the domain logic under its Next.js pages and server actions. The database tables and storage buckets are values (`seq`, `map`, `set`) passed in and out, and every server action is a pure function that returns a `Result`. The model has five parts:

- **Availability.** The interpreter's hourly slots in the `availability` table. It covers:
  - the three server actions on that table;
  - the interpreter's paint-to-toggle week editor and the week grid it shares with the client's read-only view;
  - the older day calendar, which writes to the table directly.
- **Bookings.** `createBooking` and `updateBookingStatus`. The status buttons of the mission card, the review footer and the status badge. The booking dialog's price rule and its upload path.
- **Reviews.** `createReview` with its one-review-per-booking-and-reviewer index, `getReview`, and the rating statistics.
- **Verification.** The company and interpreter records:
  - signing and uploading documents;
  - the administrator's approve, deny and sworn-translator decisions, and uploads to and deletions from the buckets;
  - the admin page's document links and raw file listing;
  - the verification table's status column and badge;
  - the review modal's split into signed agreements and uploaded documents, and its reason guards.
- **Utilities.** Document templates and their labels. The tag editor. The comma-list parser of the profile update. The client account request form. The client-verification gate of the search page. The search filters' query string.

### Modelling conventions

- **Signed-in user.** The user is `Option<string>`; `None` means not signed in.
- **Admin session.** The `admin_session` cookie value is `Option<string>`, and `ensureAdmin` passes exactly on `Some("true")`.
- **Form data.** `FormData` is a map from field name to `Text(value)` or `File(name)`. Two readings of a field are modelled. `formData.get(k) as string` (`Forms.TextField`) gives the text of a text entry, and gives nothing for a file entry. `formData.get(k)?.toString()` (`Profile.Stringified`) gives "[object File]" for a file entry.
- **Numbers from form text.** Two readings of `parseInt` are modelled. With radix 10 (`Text.ParseInt`, used by the availability views) it reads decimal digits only. Without a radix (`Text.ParseIntAuto`, used for the review rating and the profile's rate and experience) an "0x" or "0X" after the optional sign switches to base 16.
- **Store outcomes.** Each database or storage call is reduced to its outcome, a parameter such as `dbError: Option<string>` or `uploadFailed: bool`. Several actions and pages read a row with `.single()` and ignore that read's error. The read's outcome is then a parameter as well: `readFailed: bool` for `getReview`, the document uploads and `setSlotAvailability`, and `profileReadFailed` and `companyReadFailed` for the search page's two reads. A failed read is taken as "no row", as the code takes it. For `setSlotAvailability`, the read also fails when two or more rows match.
- **Environment values.** Identifiers the store assigns, `Date.now()`, `Math.random()`, date parsing, `parseFloat` and `getPublicUrl` are parameters.
- **Updates.** An update filtered on an id that matches no row succeeds and changes nothing.
- **Dates and times.** Slot dates (`yyyy-MM-dd`) are text and are compared by code unit. Start and end times are text in the form a `time` column reads back, `hh:mm:ss`. The day calendar writes `hh:mm`, and the model stores that as `hh:mm:00` (`Calendar.StoredTime`). For these two-digit times, code-unit order is time order (`Calendar.PickedTimesOrdered`). Weeks are integer day numbers, day 0 being a Monday. Dialog times are minutes after the start date's midnight.
- **Rounding.** Prices and averages are exact rationals (`real`). `toFixed` rounds half away from zero, following section 21.1.3.3 of ECMAScript 2024.

### Behaviour the code leaves open

- **Booking status transitions.** `updateBookingStatus` sets any of accepted, declined or completed on the caller's booking, whatever its current status (`Bookings.NoTransitionGuard`). Its comments (app/actions/bookings.ts:70-72) leave open who may complete a booking. Only the mission card's buttons restrict the moves: accept or decline a pending booking, complete an accepted one.
- **Unknown and foreign bookings.** The update is filtered on both the booking id and the caller. So an update of an unknown booking and an update of someone else's booking both succeed and change nothing (`Bookings.UnknownAndForeignLookAlike`).
- **End before start.** `createBooking` stores the times it is given without comparing them (`Bookings.CreateAcceptsAnyTimes`). The day calendar does the same (`Calendar.CalendarAcceptsBackwardSlot`).
- **Non-positive durations.** The booking dialog's price uses one hour when the computed duration is not positive (`Bookings.PriceFallsBackToOneHour`).
- **Invalid dates.** An invalid date makes `toISOString` throw a `RangeError`. The model returns this as a failure result.
- **A text entry as the uploaded file.** When the form's "file" field holds text rather than a file, `uploadDocument` (app/admin/actions.ts) reads `.replace` of an undefined name and throws outside any `try`, so the action rejects rather than returning `{ error }`. The model returns a failure with the marker `Admin.NameOfTextEntry`; the engine's wording of the exception is not modelled.
- **Public slot reads.** `getPublicAvailability` returns booked slots as well as free ones. Only the client view drops the booked ones.
- **Ignored read errors.** A failed read of the company or interpreter row before a document upload drops every other document of that row. For a company it also sets the status to pending_approval (`Verification.FailedReadResetsCompany`, `Verification.FailedReadDropsInterpreterDocuments`). A failed existence check before making a slot available inserts a second copy of a slot the interpreter already holds (`Availability.FailedReadDuplicatesSlot`). A failed `getReview` read makes a completed mission offer its review button again (`Reviews.FailedReadOffersReviewAgain`). A failed role read on the search page sends an administrator through the company check (`Search.FailedRoleReadWarnsAdmin`).

## Model

| member | source | states |
|---|---|---|
| Availability.SlotTimesRoundTrip | app/dashboard/interpreter/availability/actions.ts:51-52 | For every integer hour, the views' parse (text before the first colon, `parseInt`) of the written start time gives back that hour, and of the end time the next hour |
| Availability.SlotStartInjective | app/dashboard/interpreter/availability/actions.ts:51 | Distinct hours are written as distinct start times |
| Availability.RangeQuery | app/dashboard/interpreter/availability/actions.ts:11-16 | A row is returned exactly when it is the interpreter's and its date lies in the inclusive range; nothing outside the table appears |
| Availability.RangeQueryKeepsCounts | app/dashboard/interpreter/availability/actions.ts:11-16 | The query returns no row more often than the table holds it |
| Availability.GetAvailability | app/dashboard/interpreter/availability/actions.ts:6-24 | No user gives "Not authenticated"; a store error is passed on; on success exactly the caller's rows in the range |
| Availability.GetPublicAvailability | app/dashboard/interpreter/availability/actions.ts:26-44 | No sign-in check; fails exactly on a store error; otherwise exactly the given interpreter's rows in the range, booked ones included |
| Availability.SetSlotAvailability | app/dashboard/interpreter/availability/actions.ts:46-91 | No user gives "Not authenticated", and any failure is the store's error. Making a slot available: the table is unchanged when the existence check finds exactly one row. Otherwise, including after a failed check, exactly one new unbooked row for the slot is appended. Every old row is kept. Making it unavailable: exactly the caller's matching rows go |
| Availability.SetSlotIdempotent | app/dashboard/interpreter/availability/actions.ts:55-82 | Repeating a set or an unset call leaves the table as the first call did |
| Availability.SetSlotKeepsNoDuplicates | app/dashboard/interpreter/availability/actions.ts:56-74 | From a table without two rows for one (interpreter, date, start), a successful call leaves such a table exactly unless it makes an already held slot available after a failed existence check |
| Availability.UniqueMatch | app/dashboard/interpreter/availability/actions.ts:57-63 | In a table without duplicate slots that holds the slot, exactly one row matches the existence check |
| Availability.NotFoundWithoutSlot | app/dashboard/interpreter/availability/actions.ts:57-65 | When no row matches, the existence check finds nothing, whether or not the read failed |
| Availability.AddGrowsMatches | app/dashboard/interpreter/availability/actions.ts:65-72 | When the check finds nothing, making the slot available succeeds and adds exactly one matching row |
| Availability.FailedReadDuplicatesSlot | app/dashboard/interpreter/availability/actions.ts:57-74 | When the interpreter already holds the slot and the existence check fails, the call appends a second copy, and the table then has a duplicate slot |
| Availability.SetSlotIsolation | app/dashboard/interpreter/availability/actions.ts:57-82 | Every other interpreter's rows, and their order, are unchanged |
| Slots.HoursAreTheWorkingDay | components/availability-scheduler.tsx:16 | The grid has 14 rows, one per hour from 8 to 21 inclusive |
| Slots.LoadKeys | components/availability-scheduler.tsx:33-38 | A key is lit exactly when some loaded row has that date and that parsed start hour |
| Slots.RowKeyIsSlotKey | components/availability-scheduler.tsx:36-37 | A loaded row lights the cell for (date, hour) exactly when its date is that date and its start time parses to that hour |
| Slots.SlotKeyInjective | components/availability-scheduler.tsx:53 | Distinct cells have distinct `date:hour` keys |
| Slots.WeekStartOf | components/availability-scheduler.tsx:19 | The week start is the Monday on or before the day |
| Slots.WeekEndOf | components/availability-scheduler.tsx:29 | The week end is the Sunday of the same week |
| Slots.WeekDays | components/availability-scheduler.tsx:94 | Seven consecutive days from the week start |
| Slots.WeekNavigation | components/availability-scheduler.tsx:48-49 | Previous and next stay on Mondays and undo each other. Consecutive weeks tile the days; the days shown are exactly those of the week |
| Scheduler.Reload | components/availability-scheduler.tsx:26-42 | A successful read replaces the lit keys by the rows' keys; a failed one keeps them |
| Scheduler.ToggleSlot | components/availability-scheduler.tsx:51-71 | The cell ends lit exactly in add mode, other cells keep their state, and a write of the new state is issued exactly when the cell's state changes |
| Scheduler.KeyMatchesFilter | components/availability-scheduler.tsx:53-54 | For a well-formed row, lighting the clicked cell is the same as matching the action's (interpreter, date, start) filter |
| Scheduler.ServerKeyIffSlot | components/availability-scheduler.tsx:54 | The clicked cell's key is among the server's keys exactly when the server holds that slot |
| Scheduler.InsertAddsKey | app/dashboard/interpreter/availability/actions.ts:66-72 | The inserted row adds exactly the clicked cell's key to the week |
| Scheduler.DeleteRemovesKey | app/dashboard/interpreter/availability/actions.ts:76-81 | The delete removes exactly the clicked cell's key from the week |
| Scheduler.InsertKeepsWellFormed | app/dashboard/interpreter/availability/actions.ts:66-72 | Rows written by the action keep colon-free dates and `hh:00:00` start times |
| Scheduler.WriteKeepsEditorInSync | components/availability-scheduler.tsx:60-71 | When the optimistic update's write succeeds, the editor's keys equal the server's |
| Scheduler.ToggleKeepsEditorInSync | components/availability-scheduler.tsx:51-77 | If the editor showed the server's keys before a toggle, it shows them after it, whether the write succeeded or the reload reverted it |
| Scheduler.FailedWriteIsReverted | components/availability-scheduler.tsx:72-75 | A failed write leaves the table unchanged, and the reload restores the keys shown before the toggle |
| ClientView.PublicKeys | components/client-availability-view.tsx:29-38 | A key is lit exactly when some unbooked row read has that date and parsed hour |
| ClientView.ClientFetch | components/client-availability-view.tsx:22-42 | A failed read keeps the keys shown |
| ClientView.ClientCellIffFreeSlot | components/client-availability-view.tsx:27-38 | The client sees a cell lit exactly when its date is in the shown week and the interpreter has an unbooked slot there at that hour |
| ClientView.PublishedSlotIsOffered | components/client-availability-view.tsx:35-37 | After the interpreter sets a slot, a client viewing that week sees the cell lit exactly when it was set available |
| Calendar.TimeChoices | components/availability-calendar.tsx:173-176 | 24 choices, the i-th being i zero-padded to two digits followed by ":00" |
| Calendar.DefaultsAreChoices | components/availability-calendar.tsx:25-26 | The defaults 09:00 and 17:00 are the 9th and 17th choices |
| Calendar.CalendarAdd | components/availability-calendar.tsx:55-83 | No selected date or read-only changes nothing. Otherwise fails exactly on a store error, and on success appends exactly one unbooked row with the picked times in the stored `hh:mm:00` form |
| Calendar.CalendarRemove | components/availability-calendar.tsx:85-106 | Read-only changes nothing; otherwise exactly the rows with that id go, whoever owns them |
| Calendar.DayListing | components/availability-calendar.tsx:36-53 | A successful read lists exactly that interpreter's rows of that day, as a permutation sorted by start time; a failed read keeps the list |
| Calendar.CalendarAddDuplicates | components/availability-calendar.tsx:60-67 | Picking an hour whose slot the interpreter already holds stores a second copy of it |
| Calendar.CalendarAcceptsBackwardSlot | components/availability-calendar.tsx:60-67 | For every end hour picked earlier than the start hour, the row is stored with an end that sorts before its start |
| Calendar.PickedTimeIsSlotStart | components/availability-calendar.tsx:60-67 | Each picked time is stored as the start time `setSlotAvailability` writes for that hour, and the views read that hour back from it |
| Calendar.PickedTimesOrdered | components/availability-calendar.tsx:45 | Stored picker times compare by code unit exactly as their hours compare, so ordering by `start_time` is ordering by hour |
| Calendar.CalendarAddKeepsWellFormed | components/availability-calendar.tsx:60-67 | A picked slot added to an interpreter's well-formed rows keeps them well formed for the week editor |
| Calendar.CalendarKeepsUnbooked | components/availability-calendar.tsx:60-67 | Neither calendar write marks a slot booked |
| Bookings.EndDate | app/actions/bookings.ts:30 | The end date is the given one when non-empty, else the start date |
| Bookings.CreateBooking | app/actions/bookings.ts:7-62 | No user gives "Not authenticated". On success exactly one new booking: pending, client = caller, currency TND, the form's interpreter and details, the parsed start and end, and `parseFloat` of the price text; other bookings untouched. With both dates valid, it succeeds exactly when the insert does and otherwise fails with the insert's error. Other failures are an invalid date or the store's error |
| Bookings.CreateAcceptsAnyTimes | app/actions/bookings.ts:32-53 | Any two parseable instants, in either order, create a pending booking |
| Bookings.UpdateBookingStatus | app/actions/bookings.ts:64-88 | No user gives "Not authenticated". On success only a booking with that id whose interpreter is the caller takes the new status; otherwise nothing changes |
| Bookings.UnknownAndForeignLookAlike | app/actions/bookings.ts:74-87 | An unknown id and another interpreter's booking both give success with no change |
| Bookings.NoTransitionGuard | app/actions/bookings.ts:74-78 | The interpreter can set any of the three statuses from any status |
| Bookings.Offered | components/mission-card.tsx:179-210 | Accept and Decline exactly for the interpreter on a pending booking; Complete exactly for the interpreter on an accepted one |
| Bookings.UiTransitions | components/mission-card.tsx:179-210 | The moves the buttons allow are exactly pending→accepted, pending→declined and accepted→completed |
| Bookings.CardFollowsLifecycle | components/mission-card.tsx:179-210 | A button press carried through the server action makes one of those three moves |
| Bookings.ReviewFooterOf | components/mission-card.tsx:212-230 | The review button shows exactly on a completed booking not yet reviewed, and "Review Submitted" exactly on a reviewed one. The reviewee is the other party |
| Bookings.RevieweeIsOtherParty | components/mission-card.tsx:216 | Neither view asks the viewer to review themselves |
| Bookings.Capitalize | components/mission-card.tsx:88 | Same length; the first letter is upper-cased and the rest kept |
| Bookings.BadgeLabels | components/mission-card.tsx:88 | Badges read Pending, Accepted, Declined, Completed, Cancelled, one per status |
| Bookings.DialogPrice | components/booking-dialog.tsx:51-65 | The price is non-negative whenever the rate is |
| Bookings.PriceIsProRata | components/booking-dialog.tsx:51-59 | A positive duration costs hours × rate rounded to a whole number of cents: within half a cent, a tie going away from zero |
| Bookings.PriceFallsBackToOneHour | components/booking-dialog.tsx:60-65 | A missing field, or an end at or before the start, costs one hour's rate |
| Bookings.PriceNotMonotone | components/booking-dialog.tsx:56-62 | At a rate above one cent, a zero-length booking costs more than a half-hour one |
| Bookings.Extension | components/booking-dialog.tsx:74 | The extension is the text after the last dot, and holds no dot |
| Bookings.MaterialPathShape | components/booking-dialog.tsx:74-77 | The material lands in the uploader's folder; a dot-free name is kept whole as the extension |
| Numbers.ToFixed1 | lib/reviews.ts:32 | A whole number of tenths within 0.05 of the value, a tie going away from zero; non-negative for non-negative values |
| Numbers.ToFixed1Unique | lib/reviews.ts:32 | Any whole number of tenths within 0.05 of the value that respects the tie rule is the rounded value |
| Numbers.ToFixed2 | components/booking-dialog.tsx:59 | A whole number of cents within 0.005 of the value, a tie going away from zero; non-negative for non-negative values |
| Numbers.ToFixed2Unique | components/booking-dialog.tsx:59 | Any whole number of cents within 0.005 of the value that respects the tie rule is the rounded value |
| Numbers.ToFixed1Within | lib/reviews.ts:32 | Rounding keeps a value within integer bounds |
| Numbers.ToFixed2Exact | components/booking-dialog.tsx:59 | Whole cents are left unchanged |
| Reviews.CreateReview | app/actions/reviews.ts:6-42 | No user gives "Not authenticated". A missing booking or reviewee, or a rating that `parseInt` without a radix reads as zero or NaN, gives "Missing required fields". With all fields given and no earlier review by the caller for that booking, the call succeeds exactly when the insert does, and otherwise fails with the insert's error. On success exactly one review is appended: reviewer = caller, the rating as parsed. An existing review gives "You have already reviewed this booking" |
| Reviews.SecondReviewRefused | app/actions/reviews.ts:31-35 | A second review of a booking by one reviewer is refused with its own message |
| Reviews.RatingNotRangeChecked | app/actions/reviews.ts:14-29 | Every non-zero integer rating is stored as given, however far outside one to five |
| Reviews.RatingStoredAsParsed | app/actions/reviews.ts:14-29 | Whatever non-zero integer the rating text parses to is the rating stored |
| Reviews.HexRatingAccepted | app/actions/reviews.ts:14 | A rating written "0x" and hexadecimal digits is accepted and stored as their base-16 value |
| Reviews.CreateKeepsOneReviewPerKey | app/actions/reviews.ts:21-35 | Creation keeps at most one review per booking and reviewer |
| Reviews.GetReview | app/actions/reviews.ts:44-59 | A failed read gives no review. A review found matches the booking and reviewer; after a successful read under the unique index, none found means none exists |
| Reviews.CreatedReviewIsFound | app/actions/reviews.ts:44-58 | After creation, `getReview` finds the new review and the mission card shows "Review Submitted" |
| Reviews.FailedReadOffersReviewAgain | app/actions/reviews.ts:44-58 | When the read of an existing review fails, the completed mission shows the review button again, and the review it leads to is refused as already given |
| Reviews.CalculateReviewStats | lib/reviews.ts:26-38 | Null or empty gives 0 and 0; the total is the count; the average is the mean rounded to a whole number of tenths, within 0.05 of it, a tie going away from zero |
| Reviews.AverageWithinScale | lib/reviews.ts:31-35 | Ratings in [1,5] average within [1,5] |
| Reviews.SumOfPermutation | lib/reviews.ts:31 | The sum depends only on the multiset of ratings |
| Reviews.StatsIgnoreOrder | lib/reviews.ts:26-38 | The statistics do not depend on the order of the reviews |
| Verification.SubmitSignedDocument | app/dashboard/client/actions.ts:6-73 | No user gives "Unauthorized"; a missing signature or name gives its message. Fails exactly on those, an upload failure or a store error. On success only the caller's row changes. After a successful read, the document is recorded as {path, signed_at}, other documents are kept, the status moves per the signing rule and the rejection reason is kept. After a failed read, the new record is the only document and the status is pending_approval |
| Verification.SigningStatusTransition | app/dashboard/client/actions.ts:53-56 | Unverified or unset becomes pending_approval; verified, rejected and any other status is kept |
| Verification.AfterSigning | app/dashboard/client/actions.ts:53-56 | A signature never leaves the status empty or unverified, and any other set status is kept |
| Verification.SignedDocumentInOwnFolder | app/dashboard/client/actions.ts:19-23 | The path's first segment is the caller's id, and it ends in ".png" |
| Verification.ResigningOverwrites | app/dashboard/client/actions.ts:41-48 | Signing again replaces the record and keeps the set of signed documents |
| Verification.FailedReadResetsCompany | app/dashboard/client/actions.ts:35-56 | After a failed read of the company row, signing leaves only the new document in the map and sets the status to pending_approval, whatever it was |
| Verification.SetInterpreterDocument | app/dashboard/interpreter/actions.ts:87-103 | Fails exactly on a store error. Only the caller's document map changes. After a successful read, the path is stored under the type and other entries are kept. After a failed read, it is the only entry |
| Verification.UploadSignedPolicy | app/dashboard/interpreter/actions.ts:6-58 | No user, a missing file or type, and a failed upload each give their message; fails exactly on those or a store error. On success the `<id>/<type>-<ts>.pdf` path is recorded under the type |
| Verification.PolicyCardFormIsRefused | app/dashboard/interpreter/actions.ts:12-17 | A form carrying only "policyFile" is refused with "Missing file or document type" |
| Verification.SubmitInterpreterSignature | app/dashboard/interpreter/actions.ts:60-112 | The same as the policy upload, with the signature field and the `<id>/signature_<type>_<ts>.png` path |
| Verification.ToggleSwornStatus | app/dashboard/interpreter/actions.ts:114-127 | No user gives "Unauthorized"; on success only the caller's `is_sworn` changes |
| Verification.LaterUploadWins | app/dashboard/interpreter/actions.ts:94-96 | A later upload of the same type replaces the earlier entry and adds no key |
| Verification.FailedReadDropsInterpreterDocuments | app/dashboard/interpreter/actions.ts:87-96 | After a failed read of the interpreter row, an upload leaves only the new document in the map |
| Admin.IsAdmin | app/admin/actions.ts:14-19 | The gate passes exactly on the cookie value "true"; no cookie never passes |
| Admin.SanitizeName | app/admin/actions.ts:61 | Same length; each character kept if in [A-Za-z0-9.-], else `_` |
| Admin.SanitizeKeepsSafeNames | app/admin/actions.ts:61 | A name of safe characters is unchanged |
| Admin.SanitizeIdempotent | app/admin/actions.ts:61 | Sanitising twice is sanitising once |
| Admin.StoredNameShape | app/admin/actions.ts:61 | The stored name starts with `<ts>-`, keeps the name's length, and holds only safe characters or `_` after it |
| Admin.UploadDocument | app/admin/actions.ts:49-74 | No admin gives "Unauthorized"; no file gives "No file provided". Succeeds exactly for an admin, a file entry and no store error, adding exactly the stored name to the bucket |
| Admin.DeleteDocument | app/admin/actions.ts:162-180 | No admin gives "Unauthorized"; on success exactly that name leaves the bucket |
| Admin.UpdateRow | app/admin/actions.ts:86-102 | An update filtered by id, on the companies or the interpreters table, applies the change to the row with that id only; a missing id changes nothing and no row appears or disappears |
| Admin.ApproveUser | app/admin/actions.ts:76-113 | No admin gives "Unauthorized". A client becomes verified with no rejection reason, and an interpreter verified with no reason; every other row and column is unchanged |
| Admin.ApproveIdempotent | app/admin/actions.ts:85-104 | Approving twice equals approving once |
| Admin.DenyUser | app/admin/actions.ts:115-160 | No admin gives "Unauthorized". A client becomes rejected with the reason and an empty document map. An interpreter becomes unverified with the reason, no legacy policy link and an empty map. Every other row is unchanged |
| Admin.ResigningAfterDenialStaysRejected | app/admin/actions.ts:130-137 | A denied company that signs again stays rejected |
| Admin.SwornDecided | app/admin/actions.ts:190-198 | `sworn_verified` becomes the decision. Approval clears the reason and sets `is_sworn`. Rejection stores a given reason, keeps the old one when none is given, and leaves `is_sworn`. No other column changes |
| Admin.VerifySwornStatus | app/admin/actions.ts:182-212 | No admin gives "Unauthorized"; on success only that interpreter changes, as the sworn decision says |
| Admin.SwornReasonNullIffApproved | app/admin/actions.ts:192 | With a reason given, the sworn reason is null exactly on approval |
| Admin.ToggleAndSwornDecision | app/dashboard/interpreter/actions.ts:114-127 | Toggling `is_sworn` keeps the administrator's sworn decision; a later approval sets the flag; withdrawing it after an approval leaves the interpreter sworn-verified |
| AdminViews.DocPath | app/admin/page.tsx:10-17 | A value names a path exactly when it is a string or an object with a truthy `path`: the string is the path, and so is the object's `path` |
| AdminViews.GetDocumentUrls | app/admin/page.tsx:6-27 | Null gives {}. Exactly the keys whose value names a path get a link. A link starting "http" is kept verbatim, any other goes through the public-URL function |
| AdminViews.WithLegacyPolicy | app/admin/page.tsx:85-91 | "Legacy Signed Policy" is added exactly when the link is set and the entry is not already truthy; other entries are unchanged |
| AdminViews.Described | app/admin/page.tsx:39-49 | One raw document per listed file, with its public link |
| AdminViews.GetRawDocuments | app/admin/page.tsx:29-53 | An error gives []; otherwise a permutation of the listing, newest first |
| AdminViews.RawDocumentsShowEveryFile | app/admin/page.tsx:39-52 | Every listed file is shown |
| AdminViews.NameOr | components/admin/user-verification-table.tsx:50 | A non-empty full name is shown, else the fallback |
| AdminViews.InterpreterStatus | components/admin/user-verification-table.tsx:62 | verified iff verified; rejected iff not verified and a reason is set; pending otherwise |
| AdminViews.ClientUsers | components/admin/user-verification-table.tsx:46-53 | One row per company, with its status verbatim, as a permutation sorted newest first |
| AdminViews.InterpreterUsers | components/admin/user-verification-table.tsx:56-63 | One row per interpreter, with its derived status, as a permutation sorted newest first |
| AdminViews.StatusBadge | components/admin/user-verification-table.tsx:146-151 | verified→Verified, rejected→Rejected, pending_approval or pending→Pending Review, any other status verbatim |
| AdminViews.ApprovedShowsVerified | components/admin/user-verification-table.tsx:46-63 | After `approveUser` the row's status is verified and its badge Verified |
| AdminViews.DeniedShowsRejected | components/admin/user-verification-table.tsx:46-63 | After `denyUser` with a reason the row shows rejected; an interpreter denied with an empty reason shows pending |
| AdminViews.SignedAgreements | components/admin/verification-review-modal.tsx:42-47 | Exactly the entries whose lower-cased key names an agreement or whose link contains "signed_" |
| AdminViews.UploadedDocuments | components/admin/verification-review-modal.tsx:49-53 | Exactly the other entries |
| AdminViews.IsSignedAgreement | components/admin/verification-review-modal.tsx:41-45 | A key containing platform, nda, agreement, policy or signature, or a link containing signed_, marks a signed agreement whatever the case of its other letters; a lower-case key with none of the key words and a lower-case link (or none) without signed_ does not |
| AdminViews.PlainUploadIsListedAsUploaded | components/admin/verification-review-modal.tsx:41-53 | Such an entry is listed among the uploaded documents and not among the agreements |
| AdminViews.ListsKeepEntryOrder | components/admin/verification-review-modal.tsx:41-53 | Both lists keep the entries' order: the lists of a concatenation are the concatenated lists |
| AdminViews.DocumentsPartitioned | components/admin/verification-review-modal.tsx:42-53 | The two lists together hold each entry exactly as often as the documents do, and no entry is in both |
| AdminViews.SignedPathIsAgreement | components/admin/verification-review-modal.tsx:45 | A link containing "signed_" is a signed agreement whatever its key |
| AdminViews.DenyRequest | components/admin/verification-review-modal.tsx:72-76 | An empty reason sends nothing; otherwise the reason is sent |
| AdminViews.SwornRequest | components/admin/verification-review-modal.tsx:91-95 | A rejection without a reason sends nothing; an approval sends no reason, a rejection the typed one |
| AdminViews.ModalDenialShowsRejected | components/admin/verification-review-modal.tsx:72-76 | A denial sent by the modal always shows as Rejected |
| AdminViews.ModalSwornDecisionStoresReason | components/admin/verification-review-modal.tsx:91-95 | A sworn rejection through the modal stores its reason; an approval clears it |
| AdminViews.ResolvedLinksArePreviewed | components/admin/verification-review-modal.tsx:407 | Every link the admin page resolves gets a preview, PDFs included, when public links are absolute |
| AdminViews.ShowsPreview | components/admin/verification-review-modal.tsx:407 | No link gets no preview; a link starting "http" always gets one; a PDF link not starting "http" never does |
| AdminViews.DisplayName | components/admin/verification-review-modal.tsx:403 | Same length; at every position a `-` becomes a space and every other character is kept |
| Documents.StripTimestamp | lib/documents.ts:36 | A name changes only by losing a non-empty leading digit run and the dash right after it |
| Documents.StripTimestampOf | lib/documents.ts:36 | `<digits>-rest` becomes `rest` |
| Documents.StripTimestampNeedsDigits | lib/documents.ts:36 | A name not starting with a digit is kept |
| Documents.Label | lib/documents.ts:36 | A label holds no underscore and is no longer than the file name |
| Documents.LabelOfStampedPdf | lib/documents.ts:36 | `<digits>-base.pdf` is labelled `base`, for an underscore-free base without ".pdf" in it |
| Documents.UpperCaseExtensionKept | lib/documents.ts:28-36 | A name ending in ".PDF" is offered as a template, and its label keeps the extension. Only a lower-case ".pdf" is removed |
| Documents.Templates | lib/documents.ts:27-38 | An error gives []. Otherwise one template per PDF of the listing, in order, with its name, public link and label |
| Documents.TemplatesAreTheListedPdfs | lib/documents.ts:28 | The names offered are exactly the listed names ending in ".pdf" in any case |
| Documents.TemplatesKeepNameOrder | lib/documents.ts:13-29 | The listing's name order carries over to the templates |
| TagInput.Dedup | components/ui/tag-input.tsx:16 | No duplicates, and the same members as the input |
| TagInput.DedupKeepsFirstOccurrenceOrder | components/ui/tag-input.tsx:16 | The kept values come in the order of their first occurrences in the input |
| TagInput.DedupOfDistinct | components/ui/tag-input.tsx:16 | A duplicate-free list is kept as it is |
| TagInput.DedupIdempotent | components/ui/tag-input.tsx:16 | Deduplicating twice is deduplicating once |
| TagInput.Init | components/ui/tag-input.tsx:16-17 | The editor opens on the distinct default tags, in the order of their first occurrences, and an empty box |
| TagInput.KeyDown | components/ui/tag-input.tsx:19-34 | Enter, comma or space append the trimmed text when it is non-empty and new, and only then clear the box. Backspace in an empty box drops the last tag. Anything else changes nothing |
| TagInput.RemoveTag | components/ui/tag-input.tsx:36-40 | That tag goes, every other stays, the box is kept |
| TagInput.RemoveTagKeepsOrder | components/ui/tag-input.tsx:36-40 | In a distinct list, removing the k-th tag leaves exactly the tags before it followed by the tags after it |
| TagInput.Serialized | components/ui/tag-input.tsx:65 | No tags give ""; comma-free tags split back at the commas into the tag list |
| TagInput.CommaFreeJoinSplitsBack | components/ui/tag-input.tsx:65 | Comma-free tags joined with commas split back into the same tags |
| TagInput.KeyDownKeepsDistinct | components/ui/tag-input.tsx:20-28 | Keys never create a duplicate tag |
| TagInput.RemoveTagKeepsDistinct | components/ui/tag-input.tsx:36-40 | Removal never creates a duplicate tag |
| TagInput.CommitTwiceIsCommitOnce | components/ui/tag-input.tsx:22-28 | Committing the same text twice adds it once |
| TagInput.KeyDownKeepsClean | components/ui/tag-input.tsx:22-24 | Tags stay trimmed and non-empty |
| Profile.Stringified | app/dashboard/interpreter/profile/actions.ts:13 | An absent field reads as null, a text field as its text, and a file as "[object File]" |
| Profile.ParseList | app/dashboard/interpreter/profile/actions.ts:13-14 | An absent field gives []; every item is non-empty, trimmed and comma-free |
| Profile.ParseListItems | app/dashboard/interpreter/profile/actions.ts:13-14 | The items are exactly the non-empty trimmed comma-separated pieces, and there are no more of them than pieces |
| Profile.ParseListConcat | app/dashboard/interpreter/profile/actions.ts:13-14 | The items of `a,b` are the items of `a` followed by those of `b`, so the submitted order is kept |
| Profile.ParseListOfOnePiece | app/dashboard/interpreter/profile/actions.ts:13-14 | A comma-free field is one item, its trimmed text, or none when that is empty |
| Profile.ParseListOfJoin | app/dashboard/interpreter/profile/actions.ts:13 | Trimmed, non-empty, comma-free items joined with "," parse back to themselves |
| Profile.EmptyFieldParsesToNothing | app/dashboard/interpreter/profile/actions.ts:13 | An empty field gives [] |
| Profile.SubmittedTagsRoundTrip | components/ui/tag-input.tsx:65 | The tag editor's hidden value, parsed by the profile action, is the tag list |
| Profile.IntOrZero | app/dashboard/interpreter/profile/actions.ts:17-18 | The integer `parseInt` without a radix reads, or 0 for an absent field or NaN |
| Profile.IntOrZeroOfDecimal | app/dashboard/interpreter/profile/actions.ts:17-18 | A decimal rendering reads back as its value |
| Profile.IntOrZeroOfHex | app/dashboard/interpreter/profile/actions.ts:17-18 | A number written "0x" and hexadecimal digits reads as its base-16 value |
| Profile.UpdateProfile | app/dashboard/interpreter/profile/actions.ts:7-39 | No user does nothing; a store error is returned. On success only the caller's row changes, to the parsed lists, texts and integers (`parseInt` without a radix, NaN read as 0) |
| Profile.AbsentListClears | app/dashboard/interpreter/profile/actions.ts:13-30 | A list left out of the form is stored as [] |
| ClientRequests.OrNull | app/actions/client-requests.ts:23 | The value when non-empty, else null |
| ClientRequests.SubmitClientRequest | app/actions/client-requests.ts:6-33 | A missing company, email or message gives the fill-in message; a store failure the generic message. On success exactly one request is appended, its fields verbatim and an empty website null |
| ClientRequests.EmptyWebsiteIsNull | app/actions/client-requests.ts:23 | An empty website and no website are stored alike |
| Search.IsClientVerified | app/dashboard/search/page.tsx:10-37 | No user is not verified. After a successful role read, an admin or interpreter always is. Anyone else, and everyone after a failed role read, is verified exactly when the company read succeeds and the row is verified |
| Search.SearchView | app/dashboard/search/page.tsx:39-49 | The warning shows exactly when not verified; interpreters are listed either way |
| Search.ApprovalOpensSearch | app/dashboard/search/page.tsx:27-35 | After `approveUser` a client passes the gate; after `denyUser` only an admin or interpreter whose role read succeeds does |
| Search.FailedRoleReadWarnsAdmin | app/dashboard/search/page.tsx:15-35 | An administrator without a verified company passes the gate when the role read succeeds, and sees the warning when it fails |
| Search.Get | components/search-filters.tsx:14-16 | The first value under the name, or null when there is none |
| Search.Delete | components/search-filters.tsx:23 | No pair of that name is left; pairs of other names are unchanged |
| Search.Set | components/search-filters.tsx:22 | Exactly one pair of that name, with the value; pairs of other names are unchanged |
| Search.Apply | components/search-filters.tsx:22-29 | A filled field is set and an empty one deleted; other names are unchanged |
| Search.Submit | components/search-filters.tsx:18-32 | Each of city, language and specialization appears once with its value exactly when filled in; every other parameter is kept |
| Search.SubmitRoundTrip | components/search-filters.tsx:14-31 | The fields read back from the pushed query are the fields submitted |
| Search.HasFiltersIffQueryFiltered | components/search-filters.tsx:41 | "Clear Filters" shows exactly when submitting would put a filter in the query |
| Search.HasFilters | components/search-filters.tsx:41 | Some filter is set exactly when the three fields together are non-empty |
| Search.Clear | components/search-filters.tsx:34-39 | All three fields are emptied and the query is empty |
| Search.SubmitEmptyVersusClear | components/search-filters.tsx:20-38 | Submitting empty fields keeps the other parameters; clearing drops them |
| Text.ParseIntAuto | app/actions/reviews.ts:14 | A number is read exactly when digits follow the optional sign: hexadecimal digits after "0x" or "0X", decimal digits otherwise |
| Text.ParseIntAutoDecimal | app/dashboard/interpreter/profile/actions.ts:17-18 | Without an "0x" prefix, `parseInt` without a radix reads what radix 10 reads |
| Text.ParseIntAutoOfHex | app/dashboard/interpreter/profile/actions.ts:17-18 | "0x" or "0X" followed by hexadecimal digits reads as their base-16 value |
| Text.ParseIntAutoRoundTrip | app/actions/reviews.ts:14 | A rendered integer reads back as itself |
| Text.SplitAtSeparator | app/dashboard/interpreter/profile/actions.ts:13 | Splitting `a,b` at the commas gives the pieces of `a` followed by those of `b` |

## Left out

- Supabase authentication, queries and storage calls are not modelled as code. Tables are values. Each call's outcome is a parameter, including the outcome of every `.single()` read whose error the code ignores.
- The admin login and logout actions are left out: the hard-coded credentials and the cookie. The session is the cookie value passed in.
- Date parsing, time zones and date-fns arithmetic are not modelled. Dates are integer day numbers or minutes, and `new Date(...)` is a parameter.
- Binary floating-point rounding is not captured; prices and averages are exact rationals.
- `revalidatePath`, `redirect`, toasts, dialogs, the mouse-painting event wiring and all rendering are left out.
- The listing limit of 100 in `lib/documents.ts` is not modelled. The listing is an input, so the limit belongs to whoever supplies it.
- Percent-encoding of the query string is not modelled. Parameters are name-value pairs.
- Reviews.GetReview: `.single()` with two matching rows is library behaviour and is read as "no data". The lemmas assume the unique index, which rules that case out.
- Bookings.CreateBooking: requires the new identifier to be fresh, as the store guarantees. The price is `parseFloat` of the form's text, a parameter.
- Bookings.DialogPrice: its contract states non-negativity only. The exact value is stated by `Bookings.PriceIsProRata` and `Bookings.PriceFallsBackToOneHour`.
- Admin.SanitizeName: `.replace` works on UTF-16 code units and the model on Dafny characters. A character outside the Basic Multilingual Plane becomes one `_` here rather than two.
- Text.ToLower: lower-cases ASCII letters only.
- Text.ParseIntAuto: results are exact integers. JavaScript's `parseInt` returns a double, so a value above 2^53 is rounded there and not here. `Text.ParseInt` has the same gap.
- Reviews.CreateReview: the stored rating is the exact integer; for rating text above 2^53 the code stores a rounded double.
- Profile.IntOrZero: the result is the exact integer; for text above 2^53 the code stores a rounded double.
- Bookings.Capitalize: upper-cases an ASCII first letter only. Every status label starts with one.
- ClientView.ClientFetch: its contract states only the failed read. The successful read is stated by `ClientView.ClientCellIffFreeSlot`.
- The `timezone` booking field is an opaque label.
- The profile and settings pages, the tab stepping of the profile forms, the policy upload card and the other UI-only components are left out. The policy upload card's form shape appears only in `Verification.PolicyCardFormIsRefused`.
- Concurrency between availability and booking writes is not modelled. No code links bookings to slots, and `is_booked` is only ever written as false.
- Availability.SetSlotIdempotent: holds for tables holding the slot at most once and for calls whose reads and writes succeed. After a failed existence check a repeated call appends another copy (`Availability.FailedReadDuplicatesSlot`).
- Admin.ResigningAfterDenialStaysRejected: holds when the read of the company row succeeds. After a failed read the company goes to pending_approval (`Verification.FailedReadResetsCompany`).
- Forms.TextField: in the code, a file entry read with `formData.get(k) as string` is a truthy `File` object that prints as "[object File]". Here it is read as absent. So an action that receives a file in place of one of its text fields refuses it with its missing-field message, where the code would go on with "[object File]".
