# Blood bank: eligibility, compatibility and fulfilment

A Dafny model of the rules at the heart of the `donors` Django app of a
hospital blood bank.

- **Compatibility:** which donor blood types may go to which recipients.
  This is the `COMPATIBLE` table, together with the donor-side table shown
  on the request page.
- **Fulfilment from stock:** how a blood request is filled from the stock
  of approved donations, oldest first (`fulfill_request`).
  - Each donation drawn from is emptied and deleted, or shrunk and saved.
  - Every draw is written to a log.
- **Emergency allocation:** how an emergency takes one unit from each O-
  donor in turn (`emergency_request`).
- **The 56-day rule** in its three forms: `Donor.can_donate` /
  `days_until_next_donation`, the auto-disapproval in `Donation.save`, and
  the check in `DonationForm.clean`.
- **The lifecycle of a request:** the emergency override and the
  fulfilment stamp of `BloodRequest.save`, `status` and `is_overdue`, and
  the glue in `request_blood`.
- **Validators and form cleaners:** the ID, phone and e-mail validators,
  and the cleaners of the donor, donation and blood-request forms.
- **Views:** the scoring heuristics of the donor-search views, and the
  three-way partition of the availability calendar.

How the model represents the app's data:

- The database becomes values.
  - The `Donation` table is a sequence of rows (`Records.Table`) with
    unique primary keys.
  - `Lookup`, `Delete`, `Update` and `Persist` stand for `objects.get`,
    `delete()` and `save()`.
  - A query's `order_by` becomes an explicit sort (`Inventory.SortByDate`).
- Model instances whose methods change their fields become classes:
  `Eligibility.Donation`, `Requests.BloodRequest`, `Forms.DonorForm` and
  `Forms.BloodRequestForm`.
- Dates of donations are day numbers (`date.toordinal()`). Dates of birth
  and medical exams are (year, month, day) triples, because the age rule
  compares month and day. Request timestamps are seconds.
- "Today" and "now" are parameters.

Modules, one file each:

| file | module | models |
|---|---|---|
| wrappers.dfy | Wrappers | `Option`, `Outcome`, `Result` |
| text.dfy | Text | Python's `strip`, `isdigit`, `replace`, `lower`, `startswith`, `in`, `str(int)` |
| blood_types.dfy | BloodTypes | the eight types, `COMPATIBLE`, the request page's display table |
| calendar.dfy | Calendar | calendar dates and `Donor.age` |
| records.dfy | Records | `Profile`, `Donor`, `Donation` rows and table operations, `last_donation_date`, `total_donations` |
| validators.dfy | Validators | `validate_israeli_id`, `validate_israeli_phone`, `validate_email` |
| eligibility.dfy | Eligibility | `can_donate`, `days_until_next_donation`, `Donation.save`, `Donor.clean` |
| inventory.dfy | Inventory | the donation query, the walk's draws, the log lines |
| stock.dfy | Stock | what the draws do to the table |
| fulfil_request.dfy | Fulfilment | `fulfill_request` and its loop |
| blood_requests.dfy | Requests | `BloodRequest.save`, `status`, `is_overdue` |
| request_flow.dfy | RequestFlow | the fulfilment glue of `request_blood` |
| emergency.dfy | Emergency | the allocation loop of `emergency_request` |
| scoring.dfy | Scoring | `calculate_availability_score`, `calculate_simple_distance`, `calculate_match_score` |
| availability_calendar.dfy | AvailabilityCalendar | the partition of `donor_availability_calendar` |
| forms.dfy | Forms | `DonorForm`, `DonationForm` and `BloodRequestForm` cleaners |

The model follows the code on these points:

- `can_donate` and `last_donation_date` count every donation, approved or
  not.
- `Donation.save` compares with the closest strictly earlier donation of
  any approval status.
- `emergency_request` does not check the number of O- donors before it
  starts.
- An emergency fulfilment uses O- only.
- `fulfill_request` subtracts the requested units from `volume_ml`
  directly, with no unit-to-millilitre conversion.

## Model

| member | source | states |
|---|---|---|
| BloodTypes.ParseName | donors/models.py:180-183 | every blood-type code reads back as its own type, so the eight codes are distinct |
| BloodTypes.CompatibleFor | donors/views.py:312 | `COMPATIBLE.get(code, [])`: O- is offered exactly when the code is known; a known code is offered its own type, and every type offered carries no A, B or Rh D antigen the recipient lacks; an unknown code is offered nothing |
| BloodTypes.CompatibleIsAboRh | donors/views.py:10-19 | a donor type is in a recipient's row exactly when its A, B and Rh D antigens are all carried by the recipient |
| BloodTypes.CompatibleRows | donors/views.py:10-19 | every row holds O- and the recipient's own type; O- receives only O-; AB+ receives all eight |
| BloodTypes.DisplayIsTranspose | donors/views.py:230-239 | the request page's donor-to-recipient table is exactly the transpose of `COMPATIBLE`, O- meaning every type |
| Records.RolesExclusive | donors/models.py:139-147 | no profile is both a doctor's and a patient's |
| Calendar.AgeCountsBirthdays | donors/models.py:336-343 | the age is the number of birthdays reached: the last one is on or before today, the next one after |
| Calendar.AgeMonotone | donors/models.py:336-343 | the age never decreases as time goes on |
| Records.LastDonationDate | donors/models.py:351-355 | no date exactly when the donor has no donations; otherwise the date of one of the donor's donations that none of them is after |
| Records.TotalAfterInsert | donors/models.py:346-349 | a new donation adds its volume to its donor's `total_donations` and one to its count, and leaves other donors' alone |
| Records.LookupFinds | donors/views.py:326-335 | a lookup by key finds a stored row with that key, and finds nothing exactly when no row has it |
| Records.LookupDelete | donors/views.py:328 | after `delete()` the key finds nothing and every other key finds what it did before |
| Records.LookupUpdate | donors/views.py:330 | after `save()` of a loaded row its key finds the new row and every other key is unchanged |
| Records.VolumeAfterDelete | donors/views.py:328 | deleting a row removes exactly its volume from the stock |
| Records.VolumeAfterUpdate | donors/views.py:326-330 | saving a shrunk row replaces its old volume by its new one in the stock |
| Eligibility.CanDonateIffNoWait | donors/models.py:357-373 | `can_donate` holds exactly when `days_until_next_donation` is 0 |
| Eligibility.CanDonateIffAllOld | donors/models.py:357-364 | a donor may give exactly when all their donations, approved or not, are 56 days or more back |
| Eligibility.WaitBoundary | donors/models.py:357-373 | day 55 after the latest donation is too early and day 56 is not; the wait is 56, then 1, then 0 |
| Eligibility.DaysUntilNextDonation | donors/models.py:366-373 | the wait is at most 56 days unless the latest donation is dated after today |
| Eligibility.LatestBeforeSpec | donors/models.py:489-492 | the closest strictly earlier donation of the donor: none exactly when every donation of theirs is on or after the date, else the latest of the earlier ones |
| Eligibility.EarlierMembers | donors/models.py:489-491 | the filter keeps exactly the donor's donations dated strictly before the date |
| Eligibility.TooEarlyIffRecentEarlier | donors/models.py:488-494 | checking the closest earlier donation is the same as checking all: too early exactly when some earlier donation of the donor lies fewer than 56 days back |
| Eligibility.Vetted | donors/models.py:488-499 | `is_approved` becomes false when the donation is too early and is kept otherwise; the notes of a too-early donation are overwritten with the note naming the closest earlier date; the hook may change only `is_approved` and `notes`, and leaves a donation that is not too early as it was |
| Eligibility.Persist | donors/models.py:507 | after the save the row's key finds the row, and every other key finds what it did before |
| Eligibility.FirstDonationApproved | donors/models.py:488-499 | a donor's first donation is saved as given |
| Eligibility.Donation.Save | donors/models.py:481-507 | the instance's fields become the vetted row, `is_approved` becomes false when too early and is kept otherwise, and the table holds the row |
| Eligibility.DonorCleanAccepts | donors/models.py:380-398 | `Donor.clean` passes exactly when the age is 18 to 65, a chronic illness has details and the last exam is not in the future |
| Validators.IsraeliIdLanguage | donors/models.py:18-30 | the ID validator accepts exactly nine ASCII digits after strip; the empty value fails the digit test, a digit string of the wrong length the length test |
| Validators.PhoneFromMatches | donors/models.py:32-39 | every number built as (`+972` or `0`), optional `-`, `5`, an operator digit in [02-9], optional `-` and seven digits matches the phone pattern |
| Validators.PhonePatternParts | donors/models.py:32-39 | every string the pattern matches is built that way and is 10 to 15 characters long |
| Validators.ValidateEmailAccepts | donors/models.py:49-77 | the empty value comes back as it is; otherwise the result is the stripped value, and it is returned exactly when it matches the pattern and its lower-cased domain is not one of the ten disposable domains |
| Validators.EmailFromMatches | donors/models.py:61-66 | every address local@host.tld built from well-formed parts matches, and its domain is host.tld |
| Validators.EmailPatternParts | donors/models.py:61-62 | every matching address is built from well-formed local, host and top-level parts |
| Inventory.CompatibleTypes | donors/views.py:308-312 | an emergency draws from O- only; otherwise every type drawn from may give to the request's type under the ABO/Rh rule, and O- is among them exactly when the type is known |
| Inventory.Query | donors/views.py:315-318 | the walk sees exactly the approved donations of the compatible types, oldest first, with their keys unique |
| Inventory.UnknownTypeSelectsNothing | donors/views.py:312-318 | a request of an unknown type outside an emergency sees no donation |
| Inventory.TakesConserve | donors/views.py:304-336 | what is drawn plus what is still missing is the need; for a need of 0 or more, what is drawn is the smaller of the need and the eligible stock, and nothing is missing exactly when the stock covers it |
| Inventory.TakesStep | donors/views.py:320-335 | each draw happens while the need is positive, and is the smaller of the donation's volume and what is still open |
| Inventory.TakesShape | donors/views.py:320-335 | no draw exceeds its donation; every donation drawn from but the last is emptied; the walk stops early only when the need is met |
| Inventory.Fifo | donors/views.py:318-335 | when the walk draws from a donation, every eligible donation dated strictly earlier came before it and was emptied |
| Inventory.FinalLine | donors/views.py:337-340 | the text of the closing line is the success text exactly when nothing is missing; otherwise the line reports exactly what is missing |
| Inventory.NoLineSaysFullyFulfilled | donors/views.py:325-340 | no log line the walk writes contains "fully fulfilled" |
| Stock.WithdrawFinds | donors/views.py:324-335 | after a draw the donation's key finds nothing when the draw emptied it, else the row with its volume reduced by the draw |
| Stock.DrawnRow | donors/views.py:320-335 | after the walk each donation drawn from is deleted or holds exactly its remaining volume |
| Stock.DrawnOther | donors/views.py:320-335 | every row the walk does not draw from is left as it was |
| Stock.DrawnVolume | donors/views.py:320-335 | the stock shrinks by exactly the total drawn |
| Fulfilment.Draw | donors/views.py:320-341 | the loop's log is one line per donation drawn from, with the amount drawn, then the closing line; its table is the one the draws specify |
| Fulfilment.FulfillRequest | donors/views.py:303-342 | the log and the new table of `fulfill_request` for the compatible, approved donations, oldest first: residues, untouched rows, conserved volume, unique keys |
| Fulfilment.WithdrawIsSave | donors/views.py:329-330 | re-saving a shrunk donation that is not too early through `Donation.save` is the plain update of its volume |
| Requests.Saved | donors/models.py:624-634 | an emergency request not typed O- becomes O- and critical with the note prepended; otherwise type, priority and notes are kept; the fulfilment time is set once, to now, when the request is fulfilled, and never overwritten |
| Requests.SaveIdempotent | donors/models.py:624-634 | saving again, at any later time, changes nothing: the note is not prepended twice and the fulfilment time is not moved |
| Requests.SaveKeepsStatus | donors/models.py:608-634 | saving never changes the status, and a saved emergency request is never pending |
| Requests.OverdueOpen | donors/models.py:617-622 | an overdue request is not supplied and stays overdue as time goes on |
| Requests.OverdueBoundary | donors/models.py:617-622 | an open request exactly seven days old is not overdue, and one second older it is |
| Requests.BloodRequest.Save | donors/models.py:624-636 | the instance's fields become those `Saved` gives for the old fields |
| RequestFlow.Drafted | donors/views.py:258-269 | the saved request takes the form's fields, the patient's own blood type when there is one, and O-/critical for an emergency; outside an emergency the form's priority is kept; it starts open |
| RequestFlow.DraftSavedAsIs | donors/views.py:266-271 | because the view overrides an emergency first, `BloodRequest.save` never prepends its note here |
| RequestFlow.CriticalDrawsONegative | donors/views.py:274-275 | an emergency or critical request is fulfilled from O- donations only |
| RequestFlow.NeverSaysFullyFulfilled | donors/views.py:279 | the view's "fully fulfilled" test never passes, whatever the log |
| RequestFlow.SuppliedButNotMarked | donors/views.py:279-281 | a walk that supplies the whole need ends with the success line, and the view still does not mark the request |
| RequestFlow.OneDonationSupplies | donors/views.py:320-338 | a request for 1 against one approved 450 ml O- donation is supplied in full |
| RequestFlow.SuccessIffSupplied | donors/views.py:337-338 | the log ends with the success line exactly when nothing is missing |
| RequestFlow.RequestBlood | donors/views.py:258-281 | the request as drafted, the walk's log and table for its compatible types, and the request left open |
| RequestFlow.RequestBloodCorrected | donors/views.py:258-281 | as above, but the request is marked fulfilled, and stamped with now, exactly when the walk supplied the whole need |
| Emergency.Created | donors/views.py:426-448 | one new donation per donor served |
| Emergency.CreatedGrows | donors/views.py:426-448 | serving one more donor adds that donor's unit at the end |
| Emergency.CreatedRow | donors/views.py:435-441 | the k-th donation created has a fresh key, the k-th donor, today's date and 450 ml, and is approved unless too early |
| Emergency.StepAppends | donors/views.py:435-441 | creating the next donation vets it as against the table before the request, and appends it |
| Emergency.CreatedONegative | donors/views.py:419-441 | when the donors are the O- donors, every donation created is an O- unit of 450 ml dated today |
| Emergency.AllocateUnits | donors/views.py:423-448 | the loop takes one unit from each donor until none remain: the remaining units are max(0, need - donors), one donation per donor served, each vetted and appended to the table |
| Emergency.EmergencyRequestAsWritten | donors/views.py:412-458 | a non-positive need is refused with the table untouched; otherwise the donations are saved, and the request, created without `requested_by`, is never recorded |
| Emergency.EmergencyRequest | donors/views.py:412-458 | with the requesting user passed on: a non-positive need is refused; otherwise one O- unit of 450 ml, dated today, is taken from each donor until none remain, the remaining units are max(0, need - donors), the donations are appended to the table, and the request is recorded O-, critical, an emergency and fulfilled exactly when nothing remains |
| Emergency.FulfilledIffEnoughDonors | donors/views.py:451-458 | the emergency request is recorded fulfilled, and stamped, exactly when there are at least as many donors as units, and always O-, critical and without a note |
| Scoring.RecencyIsTwiceTheWait | donors/views.py:971-974 | the recency penalty is twice the days left to wait |
| Scoring.AvailabilityScore | donors/views.py:966-988 | the score is the sum of its bonuses and penalties, floored at 0, and lies in 0..120 |
| Scoring.AvailabilityTop | donors/views.py:966-988 | a score of 120 goes exactly to a donor in excellent health who neither smokes nor drinks and may give today |
| Scoring.AvailabilityGrows | donors/views.py:966-988 | waiting longer never lowers the score |
| Scoring.SimpleDistance | donors/views.py:990-993 | the distance is in 1..50 and is one more than the hash's remainder modulo 50 |
| Scoring.TypeBonus | donors/views.py:1337-1340 | the type bonus is 30 for the exact type and 0 otherwise: the +50 branch is never taken |
| Scoring.MatchScore | donors/views.py:1330-1366 | the score is the sum of its bonuses and lies in 100..230 |
| Scoring.ExactTypeWorthThirty | donors/views.py:1337-1340 | of two donors alike but for type, the one of exactly the requested type scores 30 more |
| Scoring.MatchTop | donors/views.py:1330-1366 | a score of 230 needs exactly the requested type, a donor free to give, excellent health, at most 10 km and more than five donations |
| AvailabilityCalendar.EntryFor | donors/views.py:1255-1257 | the next date is 56 days after the latest; for the donor's real latest date, the row is free now exactly when `can_donate` holds, and its days left, floored at 0, are `days_until_next_donation` |
| AvailabilityCalendar.Entries | donors/views.py:1246-1266 | each row carries its donor's latest donation date and is computed from it |
| AvailabilityCalendar.AvailableNow | donors/views.py:1272 | exactly the rows free now |
| AvailabilityCalendar.SoonAvailable | donors/views.py:1273 | exactly the rows not free now and at most seven days away |
| AvailabilityCalendar.FutureAvailable | donors/views.py:1274 | exactly the rows more than seven days away |
| AvailabilityCalendar.ListsPartition | donors/views.py:1271-1274 | the three lists together hold every row exactly as often as the data does |
| AvailabilityCalendar.OneListEach | donors/views.py:1272-1274 | a row is in exactly one list: free now (at most 0 days), soon (1 to 7) or later (more than 7) |
| AvailabilityCalendar.CalendarAgreesWithDonor | donors/views.py:1255-1257 | a row is free now exactly when `can_donate` holds, and its days floored at 0 are `days_until_next_donation` |
| AvailabilityCalendar.CalendarAsWritten | donors/views.py:1246-1266 | as written, the view renders only a calendar without rows |
| AvailabilityCalendar.CalendarFailsOnceDonated | donors/views.py:1246-1250 | as written, the view fails as soon as one donor has donated |
| AvailabilityCalendar.EntriesCoverDonors | donors/views.py:1246-1254 | a donor has a row exactly when listed and having donated |
| Forms.CleanNationalId | donors/forms.py:87-100 | accepts exactly nine digits after strip, and returns them unchanged because zero-filling nine characters to nine is the identity |
| Forms.ZFill | donors/forms.py:100 | `zfill` pads to the width and never shortens |
| Forms.NationalIdAgrees | donors/forms.py:87-100 | the form accepts exactly the ids the model's validator accepts |
| Forms.CleanDateOfBirth | donors/forms.py:102-117 | a missing date passes; a given one passes exactly when the 18th birthday has come and the 66th has not, and comes back unchanged |
| Forms.DateOfBirthAgrees | donors/forms.py:102-117 | the form rejects exactly the dates of birth that `Donor.clean` rejects for age |
| Forms.CleanChronicIllnessDetails | donors/forms.py:119-129 | an error exactly when a chronic illness has blank details; otherwise the details come back already stripped, and never blank with a chronic illness, as `Donor.clean` demands |
| Forms.ChronicDetailsSettled | donors/forms.py:119-129 | cleaning the cleaned details again changes nothing, and details passed on with a chronic illness are not blank |
| Forms.CleanPhone | donors/forms.py:134-145 | an error exactly when a number is given, normalises to something, and that is not `05` followed by eight more characters; a number that is rewritten is stored in the mobile shape with no `-` and no space |
| Forms.PhoneAccepted | donors/forms.py:137-144 | a number that normalises to the mobile shape is stored normalised |
| Forms.PhoneStored | donors/forms.py:137-144 | a rewritten number has the mobile shape and holds no `-` and no space |
| Forms.PhoneIdempotent | donors/forms.py:137-144 | normalising a stored number again changes nothing, when it does not end in whitespace |
| Forms.PhoneTabKept | donors/forms.py:137-144 | nine digits starting `05` followed by a tab and a `-` are stored with the tab |
| Forms.TabDashDigits | donors/forms.py:137-138 | normalising digits, a tab and a `-` drops only the `-` |
| Forms.PhoneTabStripped | donors/forms.py:137-143 | that stored value no longer passes the form when cleaned again |
| Forms.CleanEmailRejects | donors/forms.py:147-160 | an address is refused exactly when, stripped, it is not blank and `validate_email` refuses it; otherwise it is stored stripped |
| Forms.EmailStored | donors/forms.py:147-160 | a stored address is blank or one that `validate_email` returns unchanged |
| Forms.EmailSettled | donors/forms.py:147-160 | cleaning a stored address again keeps it |
| Forms.ContactStored | donors/forms.py:131-162 | after a clean pass the phone is as given or normalised to the mobile shape without `-` or space, and the e-mail is blank or accepted |
| Forms.DonorForm.Clean | donors/forms.py:131-162 | the outcome and the stored phone and e-mail are those of the contact rules: a bad phone raises before the e-mail is read |
| Forms.DonationFormRejects | donors/forms.py:208-232 | the form rejects a donation exactly when some earlier donation of the same donor lies fewer than 56 days before it |
| Forms.DonationFormMatchesSave | donors/forms.py:208-232 | a donation the form passes is saved as given, and one it rejects would be saved unapproved |
| Forms.BloodRequestForm.Clean | donors/forms.py:279-293 | a priority error is added exactly when an emergency is not critical, and `add_error` then drops the priority from the cleaned data; an emergency's type becomes O-; the emergency flag is kept |

## Left out

- Django itself is not modelled. The ORM, querysets, annotations, pagination, `render`, `redirect`, `messages`, authentication and roles, PDF and e-mail sending, and the seed commands all fall outside the rules modelled here.
- Emergency.EmergencyRequest takes the O- donors in the order given. The view orders them by `total_donated`, a NULL total for a donor with no donations; where NULLs sort depends on the database. The messages the view builds are not modelled.
- Emergency.EmergencyRequest takes the next free primary key as a parameter, in place of the database's sequence.
- AvailabilityCalendar.Entries lists donors in the order given, not by latest donation first. The list of donors who never gave is a plain query and is not modelled.
- Fulfilment.FulfillRequest writes the shrunk donation back without re-running the 56-day hook of `Donation.save`, which `donation.save()` triggers. Fulfilment.WithdrawIsSave shows that the two agree whenever the donation is not too early against the table. A donation approved by that hook stays so unless an earlier-dated donation of the same donor is added or re-dated later.
- The texts of log lines, notes and error messages are modelled as values. Dates in notes are day numbers, not formatted dates, and translation (`gettext`) is not modelled.
- Requests.IsOverdue compares whole seconds. The source compares `datetime` values down to microseconds.
- Scoring.SimpleDistance takes `hash(national_id)` as an input, because Python randomises string hashes per process.
- Text.IsDigits accepts the ASCII digits only. Python's `isdigit` also accepts other Unicode digits, so the ID rules reject some non-ASCII digit strings that the source accepts.
- Validators.ValidateIsraeliPhone and Validators.PhonePatternParts read the pattern's `\d` as an ASCII digit. On a Python `str`, `\d` matches any Unicode decimal digit, so the source accepts some numbers with non-ASCII digits that the model rejects, and PhonePatternParts describes only the ASCII matches.
- Inventory.Query and Inventory.InsertByDate keep donations of the same date in table order. `order_by('donation_date')` leaves that order to the database, and it decides which same-day donation is drawn first.
- Text.Lower lower-cases ASCII letters only. No disposable domain contains another letter that `lower` would change.
- Forms.PhoneIdempotent holds only for numbers that do not end in whitespace. The form removes `-` and spaces after `strip`, so a tab before a trailing `-` survives; the lemmas PhoneTabKept and PhoneTabStripped show such a number, which the form stores and would then reject.
- Floating-point results are not modelled: `donation_units`, `total_donation_units`, percentages and the shortage predictor.
- Field widths are not modelled. `volume_ml` is a small positive integer in the database and an unbounded natural number here.
- `Donor.save` calling `full_clean` is reduced to `Donor.clean` (Eligibility.DonorClean). The field validators it also runs are modelled separately in Validators.

## Findings

| source | as written | input that shows it | evidently intended | confidence | as-written member | corrected member |
|---|---|---|---|---|---|---|
| donors/views.py:279 | `request_blood` marks a request fulfilled only if the last log line contains the English words "fully fulfilled"; the success line `fulfill_request` writes (donors/views.py:338) is in Hebrew, so no request is ever marked fulfilled | a request for 1 unit against one approved 450 ml O- donation: the walk supplies it all and ends with the success line, and the request stays open | mark the request fulfilled exactly when the walk ended with the success line, i.e. nothing is missing | not executed | RequestFlow.RequestBlood, RequestFlow.SuppliedButNotMarked | RequestFlow.RequestBloodCorrected, RequestFlow.SuccessIffSupplied |
| donors/views.py:451-458 | `emergency_request` creates the `BloodRequest` without `requested_by`, a foreign key declared without `null=True` (donors/models.py:547-553), after the loop has saved the donations; the insert fails, the page errors, and the donations stay with no request recorded | `units_needed` 1 with one O- donor: one 450 ml donation is saved, then the request's insert fails | record the request with the requesting user as `requested_by`, fulfilled exactly when nothing remains | not executed | Emergency.EmergencyRequestAsWritten | Emergency.EmergencyRequest, Emergency.FulfilledIffEnoughDonors |
| donors/views.py:1246-1250 | `donor_availability_calendar` annotates the query with `last_donation_date` and `total_donations`, the names of two read-only properties of `Donor` (donors/models.py:346-355); Django sets each annotation on the fetched instance, and a property without a setter refuses it | any donor with one donation: the first row fetched fails, so the page errors | name the annotations differently and build the three lists from them | not executed | AvailabilityCalendar.CalendarAsWritten, AvailabilityCalendar.CalendarFailsOnceDonated | AvailabilityCalendar.Entries, AvailabilityCalendar.ListsPartition |
