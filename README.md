# Sport slot reservations — a verified model

This project models the reservation core of a small sports-facility booking
backend (Flask + SQLAlchemy). The facilities are the gym (`PALESTRA`), the
sports fields (`CAMPI`) and the pool (`PISCINA`).

- **Slots.** Each slot is a weekly template: one weekday, a start and end time,
  and a capacity that may be unlimited.
- **Bookings.** Users book a slot for a concrete date.
- **Administration.** Administrators create, update and deactivate slots, and
  list who booked a slot on a date.
- **Seeding.** A seeding script fills the slot table and builds one account per
  roster row. It derives a unique username from the slugified names, designates
  the single administrator, and checks that exactly one administrator exists.

The modules follow the program:

- `Models` holds the three tables: users, slots and bookings. It also holds the
  `uq_user_slot_date` constraint and `is_admin`.
- `Availability` holds the weekday rule and the `rimasti` / `pieno` figures.
- `Engine` holds every writing route as a pure transition from the database
  state to a result (or HTTP error) and the next state. It also holds the
  lemmas about those transitions: capacity, uniqueness, refusals that change
  nothing, cancellation, slot administration and the read-only views.
- `Routes` holds the class `Ledger`. It keeps the three tables as fields and
  implements each route as a method that updates them in place. Each writing
  method is proved to produce exactly the `Engine` transition. Each read-only
  method is proved to meet the specification of its query.
- `Calendar` is `datetime.strptime(s, "%Y-%m-%d")` and `date.weekday()`.
- `Requests` covers JSON values and Python's `int()`, `str()` and `bool()`.
- `Text` covers ASCII `strip`, `lower` and `upper`, plus decimal digits.
- `Ordering` is `ORDER BY` on text keys and a sorted insert.
- `Slug` is `slugify`.
- `Seeding` is `seed_slots`, the roster loop, the admin rule and
  `ensure_single_admin`.

Python's run-time errors from `int()` on a bad value become a `ServerError`
result; the app returns a 500 in that case. A failing commit is the boolean
parameter `commitOk`. The authenticated caller is a `Principal`: the user id
and whether `is_admin()` holds for them.

## Model

| member | source | states |
|---|---|---|
| Models.PrincipalOf | backend/app/models.py:30-31 | the caller counts as an admin exactly when the role is `"ADMIN"` |
| Models.NewUser | backend/app/models.py:23-26 | a user inserted without role or active flag is a non-admin `USER` and active; given values are kept |
| Models.NewSlot | backend/app/models.py:42 | a slot inserted without `attivo` is active; capacity and weekday are kept as given |
| Calendar.IsoWeekday | backend/app/routes.py:72 | `weekday() + 1` is always in 1..7 (Monday=1 … Sunday=7) |
| Calendar.NextDayWeekday | backend/app/routes.py:72 | the weekday of the next day is the following weekday, Sunday wrapping to Monday |
| Calendar.SameWeekday | backend/app/routes.py:72 | dates a whole number of weeks apart share the weekday |
| Calendar.June2024Weekdays | backend/app/models.py:38 | 2024-06-05 is weekday 3 (Wednesday) and 2024-06-06 weekday 4 |
| Calendar.ParseDate | backend/app/routes.py:18-22 | every date `parse_date` accepts is a real calendar date (month length and leap years checked) |
| Calendar.ParseFormatRoundTrip | backend/app/routes.py:18-22 | every valid date written as `YYYY-MM-DD` is parsed back to itself |
| Calendar.LenientForms | backend/app/routes.py:20 | `strptime` also accepts an unpadded month and day and a space before a one-digit day |
| Calendar.RefusedForms | backend/app/routes.py:18-22 | 30 February, year 0 and text after the day are refused as invalid dates |
| Ordering.InsertBy | backend/app/routes.py:78 | the sorted insert keeps a sorted list sorted and is a permutation of the list plus the new row |
| Ordering.StrLeTotal | backend/app/routes.py:306 | text ordering is total, so every pair of rows is ordered |
| Ordering.StrLeTransitive | backend/app/routes.py:306 | text ordering is transitive |
| Availability.Remaining | backend/app/routes.py:100 | `rimasti` is `None` exactly for an unlimited slot; otherwise it is non-negative and equals the seats left, or 0 |
| Availability.IsFull | backend/app/routes.py:113 | an unlimited slot is never `pieno` |
| Availability.FullIffNoSeatLeft | backend/app/routes.py:98-113 | for a finite capacity, `pieno` holds exactly when `rimasti` is 0 |
| Availability.OneMoreBooking | backend/app/routes.py:98-100 | one more booking on a non-full slot lowers `rimasti` by one |
| Availability.OccursOnWeekdayOnly | backend/app/routes.py:132 | whether a slot occurs on a date depends only on the date's weekday |
| Availability.OccursWeekly | backend/app/routes.py:132 | a slot occurs on a date exactly when it occurs one week later |
| Engine.NextRowId | backend/app/models.py:48 | a new row id is above every id in use, and 1 for an empty table |
| Engine.FindBooking | backend/app/routes.py:160-162 | the lookup finds the first booking with that id, or reports that none has it |
| Engine.CountForRemoveAt | backend/app/routes.py:166 | deleting one booking lowers its own slot/date count by one and no other count |
| Engine.DateArg | backend/app/routes.py:123-126 | a date argument is accepted exactly when it is text that `parse_date` accepts, and then it is that parsed valid date |
| Engine.BookingRequest | backend/app/routes.py:121-127 | a falsy or absent `slot_id` or `date` is 400 "slot_id and date required"; then an unparsable date is 400 "Invalid date"; then a failing `int(slot_id)` is a 500; the request is accepted exactly when all pass, and carries `(int(slot_id), parsed date)` |
| Engine.ReserveRefusalKeepsLedger | backend/app/routes.py:124-152 | every refused reservation leaves all three tables unchanged |
| Engine.ReserveNeedsBothArgs | backend/app/routes.py:124-125 | a missing or falsy `slot_id` or `date` gives 400 "slot_id and date required" and no change |
| Engine.ReserveSucceedsIff | backend/app/routes.py:127-152 | a reservation succeeds exactly when: the slot is active; the weekday matches; the caller has no booking for it; a finite capacity is not reached; the commit succeeds |
| Engine.ReserveAddsOneBooking | backend/app/routes.py:146-154 | success appends one booking for that user, slot and date under a new id; that count rises by one, no other count moves, earlier bookings stay |
| Engine.ReserveWithinCapacity | backend/app/routes.py:140-144 | a successful reservation never takes the slot/date count above a finite capacity |
| Engine.ReserveRefusedWhenFull | backend/app/routes.py:141-144 | once the count reaches a finite capacity, every further reservation is refused and changes nothing |
| Engine.UnlimitedNeverFull | backend/app/routes.py:141 | a slot with unlimited capacity is never refused as "Slot full" |
| Engine.SecondReserveRefused | backend/app/routes.py:136-138 | repeating a successful reservation gives 409 "Already booked" and no change |
| Engine.ReservePreservesValid | backend/app/models.py:57-59 | a reservation keeps booking keys (user, slot, date) unique, booking ids unique and every booking pointing at a slot |
| Engine.CapacityTwoScenario | backend/app/routes.py:128-144 | capacity 2 on Wednesday 2024-06-05: A and B succeed; C is refused as full; A again is already booked; Thursday is refused for the weekday |
| Engine.ReserveAllFillsToCapacity | backend/app/routes.py:140-149 | N distinct users on an empty slot of capacity C: exactly min(N, C) succeed, the rest are refused as full, and the count ends at min(N, C) |
| Engine.CancelOutcomes | backend/app/routes.py:160-168 | an unknown id is not found; a non-owner non-admin is forbidden; otherwise exactly that booking is removed and nothing else changes |
| Engine.CancelReleasesOneSeat | backend/app/routes.py:166-167 | a cancellation frees one seat of the booking's slot/date and no other |
| Engine.CancelPreservesValid | backend/app/routes.py:156-168 | a cancellation keeps the booking table invariant |
| Engine.CancelUndoesReserve | backend/app/routes.py:166 | cancelling the booking a reservation just made restores the previous state exactly |
| Engine.FirstMissing | backend/app/routes.py:219-222 | the reported field is a required field that is absent or falsy; none is reported exactly when all are present and truthy |
| Engine.FirstMissingAt | backend/app/routes.py:220-222 | the check loop reports the first missing field in the order listed |
| Engine.CapacityArg | backend/app/routes.py:223-229 | `""`, null or no value means unlimited; otherwise a failing `int()` is a 500, a value `<= 0` is 400 "capienza must be > 0 or null", and a positive one is the capacity |
| Engine.SlotFromBody | backend/app/routes.py:218-239 | creation reports the first missing field; a built slot has a positive or null capacity, weekday `int(giorno_settimana)`, and `attivo` defaulting to true |
| Engine.SlotFromBodyFields | backend/app/routes.py:218-239 | a slot is built exactly when no required field is missing, `capienza` is acceptable and `int(giorno_settimana)` succeeds; it holds the upper-cased `impianto`, the stripped `titolo`, `ora_inizio` and `ora_fine`, and the checked capacity |
| Engine.CreateSlotOutcome | backend/app/routes.py:214-241 | only admins create slots; a refusal changes nothing; a new slot gets an unused id; other slots and all bookings stay |
| Engine.CreateSlotPreservesValid | backend/app/routes.py:240 | creating a slot keeps the database invariant |
| Engine.SetFieldOnly | backend/app/routes.py:253-263 | one loop iteration changes only the named column, by its conversion |
| Engine.PatchPrefix | backend/app/routes.py:252-263 | after k iterations exactly the first k listed fields present in the body are set |
| Engine.PatchAll | backend/app/routes.py:252-263 | the full loop sets each listed field present in the body and leaves every other field |
| Engine.UpdateTouchesOnlySentFields | backend/app/routes.py:250-273 | a successful update changes exactly the fields sent; a new capacity is null or positive |
| Engine.UpdateRefusals | backend/app/routes.py:261-272 | a weekday `int()` failure is a server error; a bad `capienza` refuses the update |
| Engine.UpdateKeepsBookings | backend/app/routes.py:243-276 | an update rewrites at most one existing slot; bookings stay even when the new capacity is below their count; a refusal changes nothing |
| Engine.UpdatePreservesValid | backend/app/routes.py:275 | an update keeps the database invariant |
| Engine.DeactivateOnlyClearsActive | backend/app/routes.py:278-287 | deactivation clears only `attivo` of one slot, keeps every booking, and is idempotent |
| Engine.DeactivatedSlotRefusesReservations | backend/app/routes.py:128-129 | after deactivation every reservation of that slot is refused as "Slot not found or inactive" |
| Engine.DeactivatePreservesValid | backend/app/routes.py:285-286 | deactivation keeps the database invariant |
| Engine.DateQuery | backend/app/routes.py:66-69 | an empty `date` is 400 "date is required"; an unparsable one is 400 "Invalid date"; a parsable one gives exactly the parsed valid date |
| Engine.ListingEntries | backend/app/routes.py:96-114 | each listed slot is active, on the date's weekday and of the facility; `prenotati` is its count; `rimasti`/`pieno` agree; `prenotato_da_me` holds exactly when the caller booked it |
| Engine.MyBookingsSound | backend/app/routes.py:178-193 | every entry of "my bookings" is one of the caller's bookings on that date, joined with exactly its slot's `impianto`, `titolo`, `ora_inizio` and `ora_fine` |
| Engine.MyBookingsComplete | backend/app/routes.py:178-193 | every booking of the caller on that date, whose slot exists, is listed |
| Engine.AuditRequest | backend/app/routes.py:292-300 | a non-admin gets 403; an empty argument is 400 "date and slot_id required"; then an unparsable date is 400 "Invalid date", a failing `int(slot_id)` a 500, an unknown slot 404 "Slot not found", and otherwise the request is `(int(slot_id), parsed date)` |
| Engine.AuditListingShape | backend/app/routes.py:302-308 | the audit list has one entry per booking of the slot and date, ordered by surname |
| Engine.BookersCount | backend/app/routes.py:302-305 | with every booker in the users table, the join yields one row per booking of the slot/date |
| Routes.AllocateRowId | backend/app/models.py:48 | the loop computes the next row id: above every id in use, 1 for an empty table |
| Routes.ViewsFormListing | backend/app/routes.py:96-115 | the views of the selected rows, in order, form a correct availability listing |
| Routes.Ledger.SelectSlots | backend/app/routes.py:74-78 | the query returns each active slot of the weekday (and facility) once, ordered by facility then start time |
| Routes.Ledger.ListSlots | backend/app/routes.py:62-115 | date errors as `DateQuery`; otherwise a correct listing: each selected slot once, in order, every figure from the current bookings |
| Routes.Ledger.CreateBooking | backend/app/routes.py:117-154 | result and new tables are those of the `Reserve` transition; the table invariant is kept |
| Routes.Ledger.DeleteBooking | backend/app/routes.py:156-168 | result and new tables are those of the `Cancel` transition; the table invariant is kept |
| Routes.Ledger.MyBookings | backend/app/routes.py:170-194 | date errors as `DateQuery`; otherwise the caller's bookings on that date joined with their slots |
| Routes.Ledger.AdminCreateSlot | backend/app/routes.py:214-241 | result and new tables are those of `CreateSlot`; the required-field loop stops at the first missing field |
| Routes.Ledger.AdminUpdateSlot | backend/app/routes.py:243-276 | the field loop and the capacity rule give exactly `UpdateSlot`'s result and tables |
| Routes.Ledger.AdminDeactivateSlot | backend/app/routes.py:278-287 | result and new tables are those of `DeactivateSlot` |
| Routes.Ledger.AdminListBookings | backend/app/routes.py:289-324 | request errors as `AuditRequest`; otherwise a permutation of the slot/date's bookers, sorted by surname then first name |
| Text.Strip | backend/app/routes.py:233 | a stripped text neither starts nor ends with whitespace |
| Text.StripIsInfix | backend/app/routes.py:233 | `strip()` keeps one contiguous piece of its input, and every character it drops, before or after that piece, is whitespace |
| Text.DecimalRoundTrip | backend/init_db.py:74 | the decimal suffix of a username reads back as the number written |
| Requests.IntTextRoundTrip | backend/app/routes.py:227 | `int(str(n)) == n` for every integer |
| Requests.SeparatorIgnored | backend/app/routes.py:227 | `int()` reads digits grouped by one `_` as the same number as the digits side by side |
| Requests.MisplacedSeparators | backend/app/routes.py:227 | `int()` refuses a `_` before or after the digits and two `_` in a row |
| Requests.SurroundingSpaceSkipped | backend/app/routes.py:127 | whitespace `int()` skips, before or after the number, does not change what it reads |
| Requests.ControlSeparatorRefused | backend/app/routes.py:127 | a U+001C..U+001F character before the digits makes `int()` fail, although `str.isspace` counts it as whitespace |
| Requests.SignedText | backend/app/routes.py:227 | `int("-" + u)` is the negated value of the literal `u`, and fails when `u` is not a literal |
| Slug.AsciiOnly | backend/init_db.py:18 | the ASCII filter keeps only code points below 128 and never grows the text |
| Slug.AsciiOnlyMembers | backend/init_db.py:18 | a character is in the filtered text exactly when it is in the input and is ASCII |
| Slug.AsciiOnlyAppend | backend/init_db.py:18 | the filter works piece by piece, so it keeps the order of the characters it keeps |
| Slug.Dashify | backend/init_db.py:19 | the substitution leaves only `a-z`, `0-9` and `-` |
| Slug.DashifyKeepsSlugChars | backend/init_db.py:19 | the substitution keeps every `a-z0-9` character of its input, in order, and adds none |
| Slug.DashifyOneDashPerRun | backend/init_db.py:19 | the substitution writes exactly one `-` per maximal run of other characters |
| Slug.DashifyNoDoubleDash | backend/init_db.py:19 | each run of other characters becomes one `-`, so no two `-` are adjacent |
| Slug.TrimDashStart | backend/init_db.py:19 | `lstrip("-")` removes exactly the leading dashes |
| Slug.TrimDashEnd | backend/init_db.py:19 | `rstrip("-")` removes exactly the trailing dashes |
| Slug.SlugifyIsSlug | backend/init_db.py:16-20 | output is only `a-z0-9-`, with no `-` at either end and no two `-` in a row |
| Slug.SlugifyIdempotent | backend/init_db.py:17-20 | slugifying a slug returns it unchanged |
| Seeding.SeedSlots | backend/init_db.py:22-51 | the loops add exactly the slot table: gym days 1-5, field days 1-5, then the four pool turns |
| Seeding.SlotTableFacts | backend/init_db.py:37-51 | 24 active slots. Days 1-5: 3 gym turns at capacity 30 and 1 unlimited field turn. Pool: days 2 and 4 at 21, day 3 twice at 14. Nothing else |
| Seeding.Deduplicate | backend/init_db.py:70-76 | the base name if unused, else `base{i}` for the smallest i ≥ 2 not yet seen; never a name already seen |
| Seeding.RoleFor | backend/init_db.py:79-81 | the role is ADMIN exactly when the upper-cased surname is MENEGHELLI and the upper-cased first name is MASSIMO, and USER otherwise |
| Seeding.Title | backend/init_db.py:84-85 | title-casing keeps the length of the name and every non-letter; a letter is upper-case exactly when it starts the text or follows a non-letter |
| Seeding.UpperOfTitle | backend/init_db.py:80-85 | title-casing does not change a name's upper-cased form |
| Seeding.SeededRoleFromStoredNames | backend/init_db.py:79-86 | the stored title-cased names give the same admin verdict as the roster names |
| Seeding.SeededEmail | backend/init_db.py:77-88 | the stored e-mail is exactly `username@smam.local`; lower-casing changes nothing |
| Seeding.BaseNameNoUpper | backend/init_db.py:70 | a base name has no upper-case letter |
| Seeding.NewAccount | backend/init_db.py:65-91 | one pass picks a username not yet seen and builds the account with e-mail `username@smam.local` |
| Seeding.DistinctEmails | backend/app/models.py:24 | distinct usernames at one domain give distinct e-mails |
| Seeding.SeedUsers | backend/init_db.py:64-91 | one account per row. Usernames are pairwise distinct; `seen` grows by one per row and holds exactly them. E-mails are `username@smam.local` and satisfy the `unique` constraint |
| Seeding.NoAdminCount | backend/init_db.py:94-96 | the admin count is 0 exactly when nobody has the ADMIN role |
| Seeding.OneAdminCount | backend/init_db.py:94-98 | the admin count is 1 exactly when one user has the ADMIN role and nobody else |
| Seeding.EnsureSingleAdmin | backend/init_db.py:93-98 | no admin fails; more than one fails with their count; it passes exactly when exactly one user is admin |
| Seeding.SeededAdmins | backend/init_db.py:64-98 | the seeded accounts hold as many admins as roster rows naming Massimo Meneghelli |

## Left out

- Concurrency. The ledger is sequential; a commit refused at the database is the `commitOk` parameter.
- A refused commit is not retried: it is a plain 409 "Could not book (maybe already booked)", as in the code. A retry of the checks after a commit conflict is not modelled because the code has none.
- `login`, `me`, JWT handling, `current_user` and `require_admin`. The caller is a `Principal` passed in; a non-admin on an admin route gets 403 "Admin only".
- `admin_list_slots`: a plain listing of every slot, with no rule of its own.
- The CSV export: a formatting wrapper over Python's `csv` module.
- Password hashing: the `password_hash` column is not modelled.
- The response fields that only echo the inputs (`date`, `slot`, `ok`).
- Creation timestamps are abstract integers passed in, not `datetime.utcnow()`.
- `strptime` and `int()` accept only ASCII digits here; Unicode digits are not modelled. `int()` does accept single `_` separators between digits.
- The database is SQLite, the default in `backend/app/app.py:16`; `DATABASE_URL` can select another engine there, and `backend/app/app.py` is not part of this model. Two rules hold only on SQLite: a new row id is one above the largest id in use (`Engine.NextRowId`), and text ordering is the BINARY collation, by code point (`Ordering.StrLe`).
- SQLite's 64-bit INTEGER. The model's integers are unbounded. In the source, an id of 2^63 or more given to `db.session.get` raises `OverflowError`, a 500; the model answers 404 or looks the slot up. Likewise, a `capienza` or `giorno_settimana` outside the 64-bit range fails at commit with a 500 in the source, while `Engine.CreateSlot` and `Engine.UpdateSlot` store it in the model.
- JSON floats, lists and objects as request values are not modelled. Neither is a body that is not an object; only `null`, booleans, integers and strings are.
- `my_bookings` and the audit join are in table order. `my_bookings` has no `ORDER BY`, and the model takes the table order for it.
- `str.upper()`, `str.lower()` and `str.title()` map ASCII letters only.
- Slug.Slugify: Unicode NFKD decomposition is not modelled. A character outside ASCII is dropped whole, where the source first decomposes it (e.g. "è" gives "e").
- Spreadsheet reading with pandas, and the row filter on the first column, are not modelled. `SeedUsers` starts from the rows as (group, surname, first name) text.
- `drop_all`, `create_all`, the session commit of the seeding script and its fallback single-admin insert are not modelled.
- Slot creation and update validate neither the weekday range 1..7 nor start < end, as in the code. A slot with weekday outside 1..7 never occurs on any date.
- A weekday mismatch on a reservation is a 400 "Slot not available on selected date", as in the code. It is a separate error from an inactive or missing slot (404).
- Seeding.NewAccount: its contract does not repeat the base-name rule. That rule is stated on `Seeding.Deduplicate`, which `NewAccount` calls with `BaseName(r)`.
