# Company reviews site — a Dafny model of its request handlers

The site lets registered users review Czech companies. A submitted review is
not published at once: it waits in the `temp_reviews` table until the
administrator allows it (possibly after anonymising it) or rejects it.
Submitting a review immediately adds its rating to the company's
`points_total`, `number_of_reviews` and `current_score`. Users can search
companies by a case-insensitive part of their name. They can edit their
published reviews for three days. Withdrawing a review is meant to send it
back to moderation; as written the handler raises instead (see Findings).
They can delete their account, which hands every review they wrote to the
anonymous account (user id 5) for moderation.

The model treats the SQLite database as four tables kept in row order
(`users`, `companies`, `reviews`, `temp_reviews`) inside one object,
`Store.Db`. It has one method per POST handler that writes to the tables,
except `change_password` (see Left out). `delete_review` has two methods, one
as written and one as intended.
The read-only parts are functions:

- the search of the `reviews` page (a method with the source's loops);
- the account page's edit flags;
- the edit passthrough;
- the administrator check;
- the form guards.

A handler answers `Done`, `Refused(why)` (an apology page or a flash and
redirect, with nothing written) or `Fault` (an exception the handler does not
catch). The database library commits each statement on its own, so whatever a
handler wrote before a `Fault` stays written. The model keeps those writes.

Modules:

- `Text`: form fields, ASCII lower-casing, substring search, `int(...)`.
- `Schema`: the rows.
- `Sequences`: filtering and unique columns.
- `Aggregate`: the rating columns.
- `Tables`: the SQL statements as functions on rows.
- `Forms`: the outcomes and the form guards.
- `EditWindow`, `Admin`, `CompanySearch`: the read-only pages.
- `Store`: the database object and its handlers.

Points where the model follows the code rather than the descriptions around it:

- `delete_review` sets `user_id = 5`, but then overwrites `user_id` with the
  rows of a query and passes that list to the staging insert, which the
  database library cannot bind. `Store.Db.WithdrawReview` models the handler as
  written, which raises on every complete form before it writes anything.
  `Store.Db.WithdrawReviewIntended` models the withdrawal the comments describe
  (see Findings).
- `edit_review` checks neither the three-day window nor the 1000-character
  limit. It has no ownership check and leaves the company's totals alone.
- Only `admin_index` checks for the administrator. The four moderation
  handlers require only a login, so the model takes no session user for them.
- The rating is converted with `int(...)` and never range-checked. A
  withdrawn or deleted review's rating stays counted in its company's totals.

## Model

| member | source | states |
|---|---|---|
| `CompanySearch.Search` | app.py:379-442 | an empty query is refused before searching; otherwise none, one or several names match (`Matches`, computed by the loop with its count and last-match flag), giving not-found, the single matching company with its reviews, or every company gathered for the matched names |
| `CompanySearch.CollectNames` | app.py:383-386 | the copied list is the table's company names, in order |
| `CompanySearch.MatchLoop` | app.py:391-402 | the loop collects exactly `Matches`, its counter equals the number collected, the found flag is set exactly when something was collected, and the last-match name is the last one collected |
| `CompanySearch.GatherLoop` | app.py:415-418 | the loop's list is the company rows of every matched name, in the order of the names |
| `CompanySearch.MatchesExactly` | app.py:397-399 | a stored name is collected exactly when the lower-cased query occurs at some position of the lower-cased name |
| `CompanySearch.CaseInsensitive` | app.py:396 | queries with the same lower-case form find the same names |
| `CompanySearch.MatchesNames` | app.py:397-402 | the collected names are the names of the matching companies, in table order |
| `CompanySearch.CompanyReviews` | app.py:432-435 | the reviews shown for a company are exactly the published reviews with that company id whose author row exists |
| `CompanySearch.SeveralAreMatching` | app.py:410-424 | with unique company names, the several-matches branch returns exactly the matching companies, in table order |
| `CompanySearch.SingleIsTheMatch` | app.py:427-436 | with unique names and one match, the company looked up is the only company whose name matches |
| `CompanySearch.SearchExample` | app.py:393-402 | searching "e" among Seznam, Alza and CEZ collects Seznam and CEZ |
| `Text.ContainsIff` | app.py:398 | the recursive `needle in hay` test holds exactly when the needle occurs at some position |
| `Text.ParseShow` | app.py:655 | `int(...)` of an id written as decimal text gives the id back |
| `Forms.RegisterCheck` | app.py:136-146 | registration goes on exactly when e-mail, password and confirmation are filled and the two passwords are equal; a filled form with different passwords is refused as a mismatch |
| `Forms.RoleFor` | app.py:162-166 | the account is a company account exactly when the checkbox value is "on"; registration never creates an administrator |
| `Forms.AddCompanyCheck` | app.py:206-219 | missing name, type or location is refused; too-long input is refused exactly when one of the three is over 100 characters, or the web field is present and over 100, or both optional fields are present and the address is over 100; the length check raises exactly when the three pass and the web field is missing, or the web field passes and the address is missing; the form passes exactly when all five are present, the three filled, and all at most 100 characters |
| `Forms.EmailChangeCheck` | app.py:507-528 | a missing or empty field is refused as missing data; with all four filled, one over 100 characters is refused as too long; with all four within the limit, an unchanged address is refused as the same address, and otherwise a confirmation that differs is refused as a mismatch; each refusal holds exactly in its case, the change goes on in the remaining one, and the guard never raises |
| `Forms.PasswordChangeCheck` | app.py:588-606 | a missing or empty field is refused as missing data; with all four filled, one over 100 characters is refused as too long; with all four within the limit, a confirmation that differs from the new password is refused as a mismatch; each refusal holds exactly in its case, the change goes on in the remaining one, and the guard never raises |
| `Admin.FirstAdminIndex` | app.py:890 | finds the first user row with role admin, or reports that there is none |
| `Admin.AdminGate` | app.py:890-895 | with no admin row the lookup raises; otherwise access is granted exactly to the first admin row's id and refused as unauthorised to anyone else |
| `Admin.OnlyFirstAdmin` | app.py:890-895 | a later administrator whose id differs from every earlier one is refused |
| `Admin.AdminIndex` | app.py:886-907 | the console is shown exactly when the gate passes, the page raises exactly when there is no admin row, and access is denied as unauthorised exactly when the gate refuses; it lists every staged review with the length of its text, and the published reviews |
| `EditWindow.AccountView` | app.py:456-481 | every line is one of the user's published reviews joined with its company and flagged enabled exactly when the edit window is open; every review of the user whose company exists appears |
| `EditWindow.EditAllowed` | app.py:659 | the edit window is open from the moment of writing up to and including 259200 seconds (three days) later |
| `EditWindow.EditPassthrough` | app.py:648-673 | a missing id raises; the page is refused (as an expired window) exactly when the posted id finds a review whose window has closed; it is served exactly when the id finds a review inside its window whose company exists, and then shows that review, its company's name and the length of its text; every other case raises |
| `EditWindow.PassthroughAgreesWithAccount` | app.py:475-478 | for each account-page line, the passthrough called with its id refuses exactly the disabled lines and serves the enabled ones; a line is enabled exactly when the review is at most 259200 seconds old |
| `Aggregate.AddRating` | app.py:333-342 | one submission adds the rating to `points_total` and 1 to `number_of_reviews`, sets the score to their quotient and changes nothing else |
| `Aggregate.RateCompany` | app.py:343-349 | the update touches only rows with the company's id, keeps every id and name, and leaves every other company unchanged |
| `Aggregate.RateCompanyKeeps` | app.py:343-349 | rating a company keeps ids and names unique and every score equal to total over count |
| `Aggregate.AddRatingsTotals` | app.py:334-349 | after any sequence of submissions the total is the old total plus the sum of the ratings, the count grows by their number, and the score is the exact mean |
| `Aggregate.TwoSubmissions` | app.py:334-349 | ratings 4 and 5 on a new company give 9 points over 2 reviews, a score of 4.5, in either order |
| `Tables.FindReview` | app.py:651-657 | the row found has the requested id; none is found exactly when no row has that id |
| `Tables.FindStored` | app.py:651-657 | with unique ids, looking up a stored row's id finds that row |
| `Tables.UpdateReview` | app.py:695-701 | only the rows with the given id change, and only in text, rating and date; ids, companies and authors are kept |
| `Tables.UpdateFind` | app.py:695-706 | after the edit, the row with the edited id is the old row with the new text, rating and date, so its author is unchanged |
| `Tables.UpdateKeepsKeys` | app.py:695-701 | an edit keeps the ids unique and the set of ids the same |
| `Tables.DeleteIdCount` | app.py:783 | with unique ids, deleting an id removes exactly one row if it is present and none otherwise |
| `Tables.DeleteIdGone` | app.py:783 | after the delete no row has that id and every row with another id remains |
| `Tables.DeleteStored` | app.py:774-783 | deleting a stored row removes exactly that row and keeps every other one |
| `Tables.StagedCopy` | app.py:774-781 | the staging row has the review's text, rating, company and date under the new id and the given author |
| `Tables.AnonymizedCopies` | app.py:847-857 | one staging row per review, same text, rating, company and date, user id 5, consecutive new ids |
| `Tables.WithoutStep` | app.py:859-860 | deleting one more id after a batch of deletions equals deleting the larger batch |
| `Tables.WithoutOwnIds` | app.py:841-860 | with unique ids, deleting the ids of a user's reviews removes exactly that user's reviews |
| `Tables.OwnershipSplit` | app.py:841-860 | a user's reviews and everyone else's together are the whole table, and after the deletion the user has none left |
| `Tables.FindReviewText` | app.py:741-757 | an id posted as text matches a row only when the text is an integer and that row has it |
| `Tables.DeleteIdText` | app.py:944 | afterwards the posted id matches no row; every row it did not match is kept and no row is added |
| `Tables.FindUser` | app.py:535-541 | finds the user row with the id, or none exactly when no user has it |
| `Tables.DeleteUserGone` | app.py:874 | the deleted id is gone and every other account stays |
| `Tables.SetEmail` | app.py:563 | only the e-mail column changes; the rows with the user's id get the new address; every other account is kept; the user still exists exactly when it did before |
| `Tables.SetEmailKeeps` | app.py:561-565 | when no other account uses the address, the change keeps ids and addresses unique |
| `Tables.SetEmailFind` | app.py:561-565 | after the change, the account looked up by the user's id is the old account with the new address, and there is none if there was none |
| `Tables.NamesHold` | app.py:298-302 | the list of names has one entry per company, holds every company's name, and holds nothing that is not a company's name |
| `Tables.FindCompany` | app.py:666-669 | the company found has the requested id; none is found exactly when no company has that id |
| `Tables.CompanyIdFor` | app.py:315-318 | an id is found exactly when the name is a stored name, and it is the id of a company with that name |
| `Tables.CompanyIdForStored` | app.py:315-318 | with unique names, a stored company's name leads back to that company's id |
| `Tables.OnlyCompanyNamed` | app.py:315-318 | with unique names, the companies with a stored company's name are that company alone |
| `Sequences.FilterFilter` | app.py:859-860 | two successive deletions by condition are one deletion by both conditions |
| `Sequences.FilterDistinct` | app.py:783 | deleting rows keeps a unique column unique |
| `Sequences.AppendFresh` | app.py:324-331 | inserting a row under the next key keeps keys unique and below the next counter |
| `Store.Complete` | app.py:916-925 | the moderation guard passes exactly when none of the six fields is missing or empty |
| `Store.WithdrawnCopy` | app.py:774-781 | the staging insert succeeds exactly when its author parameter is a single value, and then copies the review's text, rating, company and date under the new id and that author |
| `Store.WithdrawBinding` | app.py:746-783 | binding the owner query's row list fails for every review; binding the anonymous account's id stages the review's content without its author |
| `Store.PublishedRow` | app.py:927-942 | the published row carries the posted text and the posted numbers, under the new id, when rating, company id, user id and date are integers |
| `Store.Db.constructor` | app.py:53 | an empty, consistent database whose first rows will get id 1 |
| `Store.Db.Register` | app.py:134-194 | guard failures and a rejected address are refused; an address already in use is refused; otherwise exactly one user row is appended with the next id, the normalised address, the name and the role; consistency is kept |
| `Store.Db.AddCompany` | app.py:204-250 | guard failures are refused; a missing optional field raises; a taken name is refused; otherwise exactly one company is appended with empty optional fields as "" and zero totals |
| `Store.Db.AddReview` | app.py:289-365 | a missing field, an unknown company or text over 1000 characters changes nothing; a non-integer rating raises before any write; otherwise exactly one staging row with the text, rating, company, session user and time is appended and only that company's totals change; a session user without a row raises after both writes |
| `Store.Db.EditReview` | app.py:678-717 | a missing field changes nothing; a non-integer rating or id raises without a change; otherwise only the row with the id gets the new text, rating and time, and the handler raises when that row or its author is missing |
| `Store.Db.WithdrawReview` | app.py:734-785 | a missing field is refused and changes nothing; every complete form raises and changes nothing, because a failed lookup or the staging insert raises before any write |
| `Store.Db.WithdrawReviewIntended` | app.py:734-785 | a missing field changes nothing; a missing row, author or company raises without a change; otherwise the row leaves `reviews` and a copy under the anonymous account (user 5) and the next staging id joins `temp_reviews`; consistency is kept |
| `Store.Db.StageAnonymized` | app.py:847-857 | the copy loop appends exactly the anonymised copies of the given reviews, with consecutive new ids |
| `Store.Db.DeleteEach` | app.py:859-860 | the delete loop leaves exactly the rows whose ids are not among the given reviews' |
| `Store.Db.DeleteAccount` | app.py:833-878 | without confirmation nothing changes; otherwise none of the user's reviews remain, staging grows by their anonymised copies, and the user row is deleted (or the handler raises when the user has no row) |
| `Store.Db.ChangeEmail` | app.py:506-578 | guard failures, a wrong current address or password, a rejected address and an address used by another account are refused without a change; a session user without a row raises; otherwise only that user's address changes |
| `Store.Db.Publish` | app.py:927-944 | one `reviews` row with the posted fields is appended under the next id and the staged row with the posted id is deleted |
| `Store.Db.AdminAnonymize` | app.py:910-949 | a missing field changes nothing; otherwise the posted review is published and the staged one deleted |
| `Store.Db.AdminAllow` | app.py:952-1001 | as for anonymising, then the author lookup raises when the author has no row |
| `Store.Db.AdminReject` | app.py:1004-1042 | a missing field changes nothing; an unknown author raises before any write; otherwise only the staged row with the id is deleted and nothing is published |
| `Store.Db.AdminDeleteOlder` | app.py:1045-1083 | a missing field changes nothing; an unknown author raises before any write; otherwise only the published row with the id is deleted |

## Findings

| source | as written | input that shows it | evidently intended | confidence | as-written member | corrected member |
|---|---|---|---|---|---|---|
| app.py:746-783 | `user_id` is first set to 5, then reassigned to the row list of `SELECT user_id FROM reviews WHERE id = ?`. That list is passed as the INSERT's `user_id`, the library cannot bind a list of rows and raises, and the DELETE is never reached. | any complete `/delete_review` form for a stored review whose author and company exist | stage the review under the anonymous account (user 5) and delete it from `reviews`, as the comments at app.py:746 and app.py:782 say | not executed | `Store.Db.WithdrawReview`, `Store.WithdrawBinding` | `Store.Db.WithdrawReviewIntended` |

## Left out

- Flask routing, templates, flashes, redirects, the session, the `after_request` headers, and the `login_required` decorator in functions.py. Handlers take the session user id as a parameter.
- Mail sending (`mail.send`). The address lookups that precede each mail are modelled, because a missing row makes them raise.
- Password hashing and checking. `Store.Db.ChangeEmail` takes the checker's verdict as a boolean. `change_password` is modelled only by its form guard (`Forms.PasswordChangeCheck`), because the hash column it updates is not part of the model.
- The e-mail validator and its deliverability lookup. Handlers take its result as a parameter: the normalised address, or None.
- `Store.Db.Register`, `Store.Db.ChangeEmail`: the UNIQUE constraint on `users.email` is assumed from the handlers' comments. The schema is not part of this model.
- `Store.Db.AddCompany`: the new company's totals are assumed to default to 0, and its score to 0.0. The schema is not part of this model.
- `current_score` is a float in the source. The model keeps it as an exact rational, so float rounding is not modelled.
- Dates are integer seconds. `strptime`, `datetime.now()` and the date text format are not modelled; the handlers take the time as a parameter.
- Sorting by locale collation and by date (the home page, the account page, the admin console). The model keeps table order.
- `Text.Lower` lower-cases ASCII letters only. Python's `str.lower` also folds Czech and other non-ASCII letters.
- `Text.ParseInt` accepts an optional sign followed by ASCII digits. Python's `int` also strips surrounding whitespace, allows underscores and accepts non-ASCII Unicode decimal digits, and SQLite's text-to-integer comparison of posted ids follows its own rules.
- `Store.Db.AdminAnonymize`, `Store.Db.AdminAllow`: SQLite stores a non-integer rating, company id, user id or date as text. The model's rows hold integers, so it answers `Fault` without writing.
- `Store.Db.WithdrawReview`: the library's binding of a list parameter is reduced to failure (`Store.Bind`). The address lookup and mail that come before the insert have no effect on the tables.
- The id counters assume `AUTOINCREMENT` keys, so a deleted row's id is never reused. Without it SQLite may give a new row the largest id in use plus one. The schema is not part of this model.
- `Store.Db.AddCompany`: `companies.company_name` is assumed UNIQUE, as the handler's comment at app.py:233 says. A taken name is refused before the insert. The schema is not part of this model.
- The home page, login, logout, the static policy pages, the delete passthrough (a read-only page), `user_data` (mail only) and the CSV of company types: they have no logic beyond what is modelled here.
- Concurrency between requests; each handler runs to completion on its own.
