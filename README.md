# Event registrations and one-time codes, modelled in Dafny

This project models the stateful core of the E-Cell NIT Silchar event-registration API:

- the **OTP service** (`src/utils/OTP.ts`). `sendOtp` deletes every code stored for an email, stores a fresh six-digit code and arms a five-minute timer. The timer deletes that issuance's entry by id. `verifyOtp` looks up the email's code, compares it as a string, and deletes it only on a match;
- the **registration controllers** for four events: Bid-Wise, Adovation, Treasure Hunt and Business Hackathon. Each one checks an email against its table, inserts one record (Adovation inserts an application together with its leader and members in one nested write), and offers lookups and deletes by email. Only Bid-Wise validates its input.

The database tables become `seq` fields of a class, one class per controller (`OtpStore`, `BidWiseTable`, `AdovationTables`, `TreasureTable`, `EventTable`). Handlers that write become methods whose `ensures` give the whole new table in terms of the old one. Every class keeps an invariant (`Valid`): at most one row per email (per leader email for Bid-Wise and Adovation), and for the OTP table distinct ids below the next id. Every method preserves it. This invariant is what makes each `findFirst`-by-email deterministic (`Store.FindUnique`).

Module `Store` is the in-memory stand-in for the record store. It provides `Find` (findFirst with an equality filter), `Remove` (deleteMany) and the lemmas relating them. `Select` (the rows with a given key, in order) is a specification helper that no handler calls; the lemmas use it to say which rows a write keeps, removes or adds. Module `Reply` holds the answer datatype; its constructors are the HTTP response kinds (200, 400 duplicate, 400 invalid, 404, 500, and no response at all). Module `Decimal` models `Number.prototype.toString` on naturals; it is used for the OTP code and for the 1-based member index in Bid-Wise's error message.

Parameters stand in for what the model cannot compute:
- the random code is a parameter `code` with `100000 <= code <= 999999`;
- a rejected database write is a flag (`storeFails`, `deleteFails`, `createFails`) or, for Bid-Wise's insert, `storeError`, the thrown message;
- the result of a confirmation email is `mailDelivered`. No contract mentions it: `sendEmail` catches its own errors and returns `false`, so the email never changes an answer or a table.

What the handlers check, and in what order:
- no handler checks an email pattern, a phone format or the kind of college; there is no member index table and no explicit transaction (Adovation's nested create is a single write);
- Bid-Wise checks for a duplicate leader email *before* it validates any field;
- a Bid-Wise team has 2–4 members;
- a Bid-Wise member with a missing field produces a 500 that carries the thrown message, not a 400.

## Model

| member | source | states |
|---|---|---|
| `Store.Find` | src/controllers/Bid-Wise.ts:22-24 | findFirst by a column: a result is a row of the table with that key; no result exactly when no row has the key |
| `Store.Remove` | src/controllers/Bid-Wise.ts:120-122 | deleteMany by a column: exactly the rows with other keys remain, never more rows than before |
| `Store.FindUnique` | src/utils/OTP.ts:126-130 | on a column kept unique, findFirst by a row's key returns that very row (lookups by email are deterministic) |
| `Store.RemoveKeepsUnique` | src/utils/OTP.ts:10-14 | deleting by any column keeps every unique column unique |
| `Store.RemoveAbsent` | src/controllers/Bid-Wise.ts:120-122 | deleting a key no row has leaves the table unchanged |
| `Store.RemoveOne` | src/controllers/treasureApply.ts:70-72 | on a unique column, deleting a present key removes exactly one row |
| `Store.SelectAfterRemove` | src/controllers/BusinessApply.ts:82-84 | deleting one key leaves the rows of every other key as they were, in order |
| `Store.SelectRemoved` | src/utils/OTP.ts:10-14 | after deleting a key no row with that key is left |
| `Store.SelectAppend` | src/utils/OTP.ts:16-21 | an insert adds the row at the end of its own key's rows and changes no other key's rows |
| `Store.FindAppend` | src/controllers/treasureApply.ts:24-34 | findFirst after an insert: an earlier row with the key still wins; otherwise the new row is found iff it carries the key |
| `Store.FindAfterRemove` | src/controllers/BusinessApply.ts:80-84 | deleting one key does not change what a lookup of any other key returns |
| `Decimal.ParseOfDecimal` | src/utils/OTP.ts:8 | the decimal text of a number parses back to that number |
| `Decimal.DecimalInjective` | src/utils/OTP.ts:8 | different codes have different texts, so an exact string comparison distinguishes any two codes |
| `Decimal.DecimalLength` | src/utils/OTP.ts:8 | a number between 10^k and 10^(k+1) - 1 has a text of k + 1 digits |
| `Decimal.DecimalLeadingDigit` | src/utils/OTP.ts:8 | the text of a positive number does not start with '0' |
| `Otp.CodeShape` | src/utils/OTP.ts:8 | a code in [100000, 999999] is six decimal digits with a non-zero first digit |
| `Otp.IssueKeepsWellFormed` | src/utils/OTP.ts:10-21 | deleteMany by email then create keeps at most one entry per email and distinct ids |
| `Otp.RemoveEmailKeepsWellFormed` | src/utils/OTP.ts:10-14 | the table left by the deleteMany alone (when the create then fails) keeps the invariant |
| `Otp.RemoveIdKeepsWellFormed` | src/utils/OTP.ts:141-145 | deleting an entry by id (consumption or expiry) keeps the invariant |
| `Otp.IssueSupersedes` | src/utils/OTP.ts:10-21 | after issuing, the email's entries are exactly the one new entry with the new code: every earlier entry is gone |
| `Otp.IssueKeepsOthers` | src/utils/OTP.ts:10-14 | issuing for one email leaves every other email's entries unchanged, in order |
| `Otp.IssuedIsFound` | src/utils/OTP.ts:16-21 | after issuing, findFirst by the email returns the new entry |
| `Otp.ConsumedIsGone` | src/utils/OTP.ts:139-146 | deleting the found entry by its id leaves no entry for the email |
| `Otp.StaleExpiryKeepsNewer` | src/utils/OTP.ts:100-113 | once an email has been issued again, deleting the earlier issuance's id removes nothing: the newer code survives |
| `Otp.OtpStore.Issue` | src/utils/OTP.ts:5-119 | sendOtp: on success "OTP sent successfully" and the table is the old one without the email's entries plus the new entry with the code's text and a fresh id; a rejected deleteMany gives "Internal server error" and no change; a rejected create gives the same answer but the deletion has happened; the invariant holds |
| `Otp.OtpStore.Verify` | src/utils/OTP.ts:121-151 | verifyOtp: no entry gives "OTP not found" and no change; a different string gives "OTP not matched" and no change; the same string gives success and deletes exactly that entry |
| `Otp.OtpStore.Expire` | src/utils/OTP.ts:100-114 | the timer callback: nothing changes if the email has no entry, otherwise only the entry with the captured id is deleted |
| `Otp.VerifyIsSingleUse` | src/utils/OTP.ts:139-146 | from any valid table: issue, then verify with the delivered code twice; the first succeeds and the second finds nothing |
| `Otp.MismatchDoesNotConsume` | src/utils/OTP.ts:135-138 | a wrong code is rejected as not matched and the correct code still succeeds afterwards |
| `Otp.Supersession` | src/utils/OTP.ts:10-21 | two issuances for one email, then the first issuance's timer fires: the first code is rejected and the second is accepted |
| `BidWise.MissingLeaderField` | src/controllers/Bid-Wise.ts:30-35 | the leader loop returns the first of fullName, email, contact, scholarId that is missing or empty, or nothing when all four are present |
| `BidWise.IncompleteMember` | src/controllers/Bid-Wise.ts:41-45 | the forEach check returns the first member without fullName, email or scholarId, or nothing when every member has them |
| `BidWise.CompleteLeaderFields` | src/controllers/Bid-Wise.ts:30-35 | passing the leader loop means each of the four named fields is present and non-empty |
| `BidWise.ProjectionKeepsValidatedFields` | src/controllers/Bid-Wise.ts:47-64 | the stored leader holds exactly the four submitted leader fields, and member k holds member k's fullName, email and scholarId, with as many members as submitted |
| `BidWise.BidWiseTable.Check` | src/controllers/Bid-Wise.ts:86-114 | checkBidWise and getSingleBidWise: a registration whose leader has the email, or null exactly when there is none |
| `BidWise.BidWiseTable.Create` | src/controllers/Bid-Wise.ts:18-84 | createBidWise: in this order, a missing leader gives a 500, a registered leader email gives "already registered", then the first missing leader field, then the 2–4 team size, then the first incomplete member (1-based, as a 500), then a failed insert (its message); every rejection leaves the table unchanged; success adds exactly the projected record at the end |
| `BidWise.BidWiseTable.Delete` | src/controllers/Bid-Wise.ts:116-136 | deleteBidWise: removes every registration with that leader email and no other, and reports how many were removed (one or none); a rejected deleteMany gives a 500 "Something went wrong!" and no change |
| `BidWise.RegisterTwice` | src/controllers/Bid-Wise.ts:22-28 | an admissible submission succeeds once; repeating it is a duplicate, and only one row is added |
| `Adovation.NestedCreateLinks` | src/controllers/Adovation.ts:19-46 | after the nested create the new application has exactly one linked leader row and, in order, exactly the new member rows |
| `Adovation.AdovationTables.Check` | src/controllers/Adovation.ts:66-74 | true exactly when some leader row has the email |
| `Adovation.AdovationTables.Create` | src/controllers/Adovation.ts:7-56 | a missing leader gives a 500; an existing leader email gives "already submitted"; missing members or a failed write give a 500; in every such case none of the three tables changes. On success exactly one application, one linked leader and the linked members are added |
| `Adovation.AdovationTables.Delete` | src/controllers/Adovation.ts:76-92 | an unknown leader email gives 404 "No application found." and no change; otherwise exactly the application with the leader's adovationId is removed (no response if that application no longer exists) |
| `TreasureApply.TreasureTable.Check` | src/controllers/treasureApply.ts:54-65 | the application with the email, or null exactly when there is none |
| `TreasureApply.TreasureTable.Create` | src/controllers/treasureApply.ts:19-52 | a known email gives "You have already applied." and no change; otherwise the six fields are stored unchanged as exactly one new row (or a 500 and no change if the insert fails) |
| `TreasureApply.TreasureTable.Delete` | src/controllers/treasureApply.ts:67-86 | a missing email gives "Failed to delete application." and no change; otherwise exactly that email's application is removed and returned |
| `TreasureApply.ApplyTwice` | src/controllers/treasureApply.ts:24-34 | after a successful application, any second one with the same email is refused and stores nothing |
| `BusinessApply.EventTable.Check` | src/controllers/BusinessApply.ts:62-77 | checkEventApplication and getSingleEventApplication: the application with the email, or null exactly when there is none |
| `BusinessApply.EventTable.Create` | src/controllers/BusinessApply.ts:16-59 | a known email gives "You have already applied." and no change; otherwise exactly one row with the six fields is added and success is reported (or a 500 and no change if the insert fails) |
| `BusinessApply.EventTable.Delete` | src/controllers/BusinessApply.ts:80-94 | exactly the application with the email is removed and returned; a missing email leaves the table unchanged and the request unanswered |
| `BusinessApply.DeleteIsTargeted` | src/controllers/BusinessApply.ts:80-84 | after a delete the email is no longer found, and a lookup of any other email returns what it returned before |

## Left out

- The list-all handlers (`getBidWiseTeams`, `getAdovationApplications`, `getTreasureApplications`, `getEventApplications`) are left out. Each returns its whole table unchanged.
- `sendEmail` and the Brevo client are left out. `sendEmail` catches every error and returns `false`, so it appears only as the ignored parameter `mailDelivered`.
- The HTML and text templates and the console logging are left out.
- `Math.random` is replaced by the parameter `code`.
- The 5-minute `setTimeout` delay is left out; expiry is an explicit `Expire` call. With no clock in the model, a verify that arrives after five minutes but before the timer fires succeeds, as in the code.
- Lookup failures (a `findFirst` or `findUnique` that throws) are left out. The rejected writes that are modelled are: sendOtp's deleteMany and create (`deleteFails`, `createFails`), verifyOtp's lookup finding nothing, createBidWise's insert (`storeError`), deleteBidWise's deleteMany (`storeFails`), Adovation's nested create (`storeFails`), the Treasure Hunt and Business Hackathon inserts (`storeFails`), and the three deletes by a key that no row has (Adovation, Treasure Hunt, Business Hackathon).
- A delete in Adovation, Treasure Hunt or Business Hackathon that the database rejects for another reason, with the key present, is not modelled. In the code, Treasure Hunt answers it with the same 500 as an absent key, and the other two send no response.
- Races between concurrent requests are left out, including the check-then-create race and timers overlapping with requests. The model is sequential.
- Database ids are a counter in the model, not generated by the database.
- Unique indexes, and cascades when an Adovation application is deleted, belong to the database schema, which is not part of this model. `Adovation.AdovationTables.Delete` therefore leaves the leader and member rows in place.
- `server.ts`, `src/app.ts` and the route files are plumbing and are not part of this model. The StartupExpo controller is not part of this model.
- Otp.OtpStore.Issue: the `!otpSent` branch (400 "OTP not sent") is not modelled. It cannot be reached, because the create returns a record or throws.
- Otp.OtpStore.Verify: the 200 is sent before the delete. A delete that then fails is not modelled.
- Otp.OtpStore.Issue: the email is a string. With no `email` in the body the database client drops the `undefined` filter, so the deleteMany deletes every user's entry and the create is then rejected (a 500 with an empty table). This wipe is not modelled, and `Otp.IssueKeepsOthers` does not hold for that input.
- Otp.OtpStore.Verify: the email and the code are strings. With no `email`, the lookup returns some other email's entry, and a matching code deletes it. A code sent as a JSON number never equals the stored text under `!==`, so it is always "OTP not matched". Neither is modelled.
- BidWise.BidWiseTable.Check: the email is a string. With no `email` the filter is dropped and the lookup returns an arbitrary registration; this is not modelled.
- BidWise.BidWiseTable.Delete: the email is a string. With no `email` the filter is dropped and the deleteMany deletes every registration; this is not modelled.
- Adovation.AdovationTables.Check: the email is a string. With no `email` the `findUnique` is rejected outside any try/catch and no response is sent; this is not modelled.
- Adovation.AdovationTables.Delete: the leader email is a string. With no `leaderEmail` the `findUnique` is rejected outside any try/catch and no response is sent; this is not modelled.
- BidWise.BidWiseTable.Create: an absent `leader.email` never counts as a duplicate in the model. The database client drops a filter whose value is `undefined`, which the model does not reproduce.
- BidWise.BidWiseTable.Create: the model assumes `members` is absent or a list, and each member is a record. A member that is `null` fails in the code with a different TypeError, which is not modelled.
- Adovation.AdovationTables.Create: leader and member fields are plain strings. An absent leader email in a `findUnique`, and absent required columns, are rejected by the database client according to the schema, which is not part of this model.
- TreasureApply.TreasureTable.Create: request fields are plain strings. An absent `email` in the body is not modelled.
- BusinessApply.EventTable.Create: request fields are plain strings. An absent `email` in the body is not modelled.
