/**
 * The site's database and the POST handlers that write to it.
 *
 * The four tables are kept in row order; each id counter is the primary key the
 * next INSERT into its table receives. A handler answers `Done` (its redirect),
 * `Refused` (an apology page, or a flash and redirect, with nothing written) or
 * `Fault` (an exception the handler does not catch). The site's database library
 * commits every statement on its own, so the statements a handler ran before a
 * `Fault` stay in the tables.
 */
module Store {
  import opened Wrappers
  import opened Text
  import opened Schema
  import opened Sequences
  import opened Aggregate
  import opened Tables
  import opened Forms

  datatype Response = Done | Refused(why: Refusal) | Fault

  /** Every column of the database at one moment. */
  datatype DbState = DbState(
    users: seq<User>, companies: seq<Company>, reviews: seq<Review>, pending: seq<Review>,
    nextUserId: int, nextCompanyId: int, nextReviewId: int, nextPendingId: int)

  /**
   * A query parameter as the site's database library receives it: a scalar, or the
   * list of rows an earlier `SELECT` returned (each row a column-to-value
   * dictionary, here reduced to the one column it holds).
   */
  datatype Param = Scalar(n: int) | RowList(rows: seq<int>)

  /**
   * The value a parameter binds to. The library writes a list out as the SQL forms
   * of its elements, and a row dictionary has none, so it raises instead.
   */
  function Bind(p: Param): Option<int>
  {
    match p
    case Scalar(n) => Some(n)
    case RowList(_) => None
  }

  /**
   * The `temp_reviews` row `/delete_review` inserts for `row` under `id`, with
   * `owner` bound as its author: None when the INSERT raises.
   */
  function WithdrawnCopy(row: Review, id: int, owner: Param): (s: Option<Review>)
    ensures s.Some? <==> owner.Scalar?
    ensures s.Some? ==> SameContent(s.value, row) && s.value.id == id && s.value.userId == owner.n
  {
    match Bind(owner)
    case None => None
    case Some(uid) => Some(StagedCopy(row, id, uid))
  }

  /**
   * `/delete_review` as written binds the whole result of `SELECT user_id ...` as the
   * staged row's author, so the INSERT never succeeds for any review; binding the
   * anonymous account's id, as the handler's comments intend, stages the review's
   * content with the author removed.
   */
  lemma WithdrawBinding(row: Review, id: int)
    ensures WithdrawnCopy(row, id, RowList([row.userId])).None?
    ensures var s := WithdrawnCopy(row, id, Scalar(AnonymousUserId));
            && s.Some? && SameContent(s.value, row) && s.value.id == id
            && s.value.userId == AnonymousUserId && (row.userId != AnonymousUserId ==> s.value.userId != row.userId)
  {
  }

  /** The six hidden fields the admin console posts for one review. */
  datatype ModerationForm = ModerationForm(
    reviewId: Field, text: Field, rating: Field, companyId: Field, userId: Field, time: Field)

  /**
   * The required-field guard the four admin handlers share: it rejects the form
   * when any of the six fields is missing or posted empty.
   */
  predicate Complete(f: ModerationForm): (ok: bool)
    ensures var fields := [f.reviewId, f.text, f.rating, f.companyId, f.userId, f.time];
            ok <==> None !in fields && Some("") !in fields
  {
    Filled(f.reviewId) && Filled(f.text) && Filled(f.rating)
    && Filled(f.companyId) && Filled(f.userId) && Filled(f.time)
  }

  /** The `reviews` row an admin form publishes under `id`, when its numeric fields are integers. */
  function PublishedRow(f: ModerationForm, id: int): (r: Option<Review>)
    requires Complete(f)
    ensures r.Some? <==>
              ParseInt(f.rating.value).Some? && ParseInt(f.companyId.value).Some?
              && ParseInt(f.userId.value).Some? && ParseInt(f.time.value).Some?
    ensures r.Some? ==> r.value.id == id && r.value.text == f.text.value
                        && ParseInt(f.rating.value) == Some(r.value.rating)
                        && ParseInt(f.companyId.value) == Some(r.value.companyId)
                        && ParseInt(f.userId.value) == Some(r.value.userId)
                        && ParseInt(f.time.value) == Some(r.value.time)
  {
    match (ParseInt(f.rating.value), ParseInt(f.companyId.value), ParseInt(f.userId.value), ParseInt(f.time.value))
    case (Some(rating), Some(company), Some(user), Some(time)) =>
      Some(Review(id, f.text.value, rating, company, user, time))
    case _ => None
  }

  class Db {
    var users: seq<User>
    var companies: seq<Company>
    var reviews: seq<Review>
    /** `temp_reviews`: submitted or withdrawn reviews waiting for the administrator. */
    var pending: seq<Review>
    var nextUserId: int
    var nextCompanyId: int
    var nextReviewId: int
    var nextPendingId: int

    ghost function State(): DbState
      reads this
    {
      DbState(users, companies, reviews, pending, nextUserId, nextCompanyId, nextReviewId, nextPendingId)
    }

    /**
     * Primary keys and the UNIQUE e-mail and company-name columns hold no duplicates,
     * every key is below its table's counter, and every company's score is the mean
     * of the ratings counted in its totals.
     */
    ghost predicate Valid()
      reads this
    {
      && DistinctBy(users, UserKey) && DistinctBy(users, EmailKey) && KeysBelow(users, UserKey, nextUserId)
      && DistinctBy(companies, CompanyKey) && DistinctBy(companies, NameKey)
      && KeysBelow(companies, CompanyKey, nextCompanyId)
      && (forall c :: c in companies ==> ScoreAgrees(c))
      && DistinctBy(reviews, ReviewKey) && KeysBelow(reviews, ReviewKey, nextReviewId)
      && DistinctBy(pending, ReviewKey) && KeysBelow(pending, ReviewKey, nextPendingId)
    }

    /** A new, empty database; SQLite numbers the first row of each table 1. */
    constructor ()
      ensures Valid()
      ensures State() == DbState([], [], [], [], 1, 1, 1, 1)
    {
      users, companies, reviews, pending := [], [], [], [];
      nextUserId, nextCompanyId, nextReviewId, nextPendingId := 1, 1, 1, 1;
    }

    /**
     * `/register`. `normalized` is the e-mail validator's verdict on `email`: the
     * normalised address, or None when it rejects it.
     */
    method Register(email: Field, password: Field, confirmation: Field, name: Field,
                    registerCompany: Field, normalized: Option<string>) returns (resp: Response)
      requires Valid()
      modifies this
      ensures Valid()
      ensures RegisterCheck(email, password, confirmation).Fail? ==>
                resp == Refused(RegisterCheck(email, password, confirmation).why) && unchanged(this)
      ensures RegisterCheck(email, password, confirmation).Pass? ==>
                match normalized
                case None => resp == Refused(InvalidEmail) && unchanged(this)
                case Some(address) =>
                  if EmailTaken(old(users), address) then resp == Refused(DuplicateEmail) && unchanged(this)
                  else resp == Done && State() == old(State()).(
                    users := old(users) + [User(old(nextUserId), address, name, RoleFor(registerCompany))],
                    nextUserId := old(nextUserId) + 1)
    {
      var check := RegisterCheck(email, password, confirmation);
      if check.Fail? {
        return Refused(check.why);
      }
      if normalized.None? {
        return Refused(InvalidEmail);
      }
      if EmailTaken(users, normalized.value) {
        return Refused(DuplicateEmail);
      }
      var user := User(nextUserId, normalized.value, name, RoleFor(registerCompany));
      AppendFresh(users, UserKey, nextUserId, user);
      AppendUnique(users, EmailKey, user);
      users := users + [user];
      nextUserId := nextUserId + 1;
      return Done;
    }

    /** `/add_company`: a new company with empty totals, or a refusal when the name is taken. */
    method AddCompany(name: Field, kind: Field, location: Field, web: Field, address: Field)
      returns (resp: Response)
      requires Valid()
      modifies this
      ensures Valid()
      ensures var check := AddCompanyCheck(name, kind, location, web, address);
              && (check.Fail? ==> resp == Refused(check.why) && unchanged(this))
              && (check.Crash? ==> resp == Fault && unchanged(this))
              && (check.Pass? && name.value in Names(old(companies)) ==>
                    resp == Refused(DuplicateName) && unchanged(this))
              && (check.Pass? && name.value !in Names(old(companies)) ==>
                    resp == Done && State() == old(State()).(
                      companies := old(companies) + [Company(old(nextCompanyId), name.value, kind.value,
                                     location.value, OrEmpty(web), OrEmpty(address), 0, 0, 0.0)],
                      nextCompanyId := old(nextCompanyId) + 1))
    {
      var check := AddCompanyCheck(name, kind, location, web, address);
      if check.Fail? {
        return Refused(check.why);
      }
      if check.Crash? {
        return Fault;
      }
      if name.value in Names(companies) {
        return Refused(DuplicateName);
      }
      var company := Company(nextCompanyId, name.value, kind.value, location.value,
                             OrEmpty(web), OrEmpty(address), 0, 0, 0.0);
      AppendFresh(companies, CompanyKey, nextCompanyId, company);
      forall c | c in companies ensures NameKey(c) != NameKey(company) {
        var k :| 0 <= k < |companies| && companies[k] == c;
        assert Names(companies)[k] == c.name;
      }
      AppendUnique(companies, NameKey, company);
      companies := companies + [company];
      nextCompanyId := nextCompanyId + 1;
      return Done;
    }

    /**
     * `/add_review`: stage the review for moderation and count its rating in the
     * company's totals at once. The author's address is looked up last, for the
     * confirmation mail; a session user without a row makes that lookup fail after
     * both writes.
     */
    method AddReview(name: Field, rating: Field, text: Field, sessionUser: int, now: int)
      returns (resp: Response)
      requires Valid()
      modifies this
      ensures Valid()
      ensures !(Filled(name) && Filled(rating) && Filled(text)) ==>
                resp == Refused(MissingData) && unchanged(this)
      ensures Filled(name) && Filled(rating) && Filled(text) ==>
                if name.value !in Names(old(companies)) then
                  resp == Refused(UnknownCompany) && unchanged(this)
                else if |text.value| > MaxReviewLength then
                  resp == Refused(TextTooLong) && unchanged(this)
                else if ParseInt(rating.value).None? then
                  resp == Fault && unchanged(this)
                else
                  var companyId := CompanyIdFor(old(companies), name.value).value;
                  var stars := ParseInt(rating.value).value;
                  && State() == old(State()).(
                       pending := old(pending) + [Review(old(nextPendingId), text.value, stars, companyId, sessionUser, now)],
                       nextPendingId := old(nextPendingId) + 1,
                       companies := RateCompany(old(companies), companyId, stars))
                  && resp == if UserExists(old(users), sessionUser) then Done else Fault
    {
      if !(Filled(name) && Filled(rating) && Filled(text)) {
        return Refused(MissingData);
      }
      if name.value !in Names(companies) {
        return Refused(UnknownCompany);
      }
      if |text.value| > MaxReviewLength {
        return Refused(TextTooLong);
      }
      var stars := ParseInt(rating.value);
      if stars.None? {
        return Fault;
      }
      var companyId := CompanyIdFor(companies, name.value).value;
      var staged := Review(nextPendingId, text.value, stars.value, companyId, sessionUser, now);
      AppendFresh(pending, ReviewKey, nextPendingId, staged);
      pending := pending + [staged];
      nextPendingId := nextPendingId + 1;
      RateCompanyKeeps(companies, companyId, stars.value, nextCompanyId);
      companies := RateCompany(companies, companyId, stars.value);
      if !UserExists(users, sessionUser) {
        return Fault;
      }
      return Done;
    }

    /**
     * `/edit_review`: overwrite the text, rating and date of the row with the posted
     * id. There is no ownership check, no edit-window check, no length check and no
     * change to the company's totals. The owner's address is then looked up for the
     * confirmation mail.
     */
    method EditReview(rating: Field, text: Field, reviewId: Field, companyName: Field, now: int)
      returns (resp: Response)
      requires Valid()
      modifies this
      ensures Valid()
      ensures !(Filled(rating) && Filled(text) && Filled(reviewId) && Filled(companyName)) ==>
                resp == Refused(MissingData) && unchanged(this)
      ensures Filled(rating) && Filled(text) && Filled(reviewId) && Filled(companyName) ==>
                if ParseInt(rating.value).None? || ParseInt(reviewId.value).None? then
                  resp == Fault && unchanged(this)
                else
                  var id := ParseInt(reviewId.value).value;
                  var before := FindReview(old(reviews), id);
                  && State() == old(State()).(
                       reviews := UpdateReview(old(reviews), id, text.value, ParseInt(rating.value).value, now))
                  && resp == if before.Some? && UserExists(old(users), before.value.userId) then Done else Fault
    {
      if !(Filled(rating) && Filled(text) && Filled(reviewId) && Filled(companyName)) {
        return Refused(MissingData);
      }
      var stars := ParseInt(rating.value);
      if stars.None? {
        return Fault;
      }
      var id := ParseInt(reviewId.value);
      if id.None? {
        // the UPDATE matches no row and the owner lookup finds none
        return Fault;
      }
      UpdateKeepsKeys(reviews, id.value, text.value, stars.value, now, nextReviewId);
      UpdateFind(reviews, id.value, text.value, stars.value, now);
      reviews := UpdateReview(reviews, id.value, text.value, stars.value, now);
      var edited := FindReview(reviews, id.value);
      if edited.None? || !UserExists(users, edited.value.userId) {
        return Fault;
      }
      return Done;
    }

    /**
     * `/delete_review` as written: after the required-field guard it looks up the
     * review, its author's address and its company (each lookup that finds nothing
     * raises), and then the INSERT into `temp_reviews` raises because its author
     * parameter is a list of rows (see WithdrawBinding). The DELETE after it is never
     * reached, so no form changes the tables.
     */
    method WithdrawReview(confirmation: Field, reviewId: Field) returns (resp: Response)
      requires Valid()
      modifies this
      ensures Valid()
      ensures !(Filled(confirmation) && Filled(reviewId)) ==> resp == Refused(MissingData) && unchanged(this)
      ensures Filled(confirmation) && Filled(reviewId) ==> resp == Fault && unchanged(this)
    {
      if !(Filled(confirmation) && Filled(reviewId)) {
        return Refused(MissingData);
      }
      var row := FindReviewText(reviews, reviewId.value);
      if row.None? || !UserExists(users, row.value.userId) || FindCompany(companies, row.value.companyId).None? {
        return Fault;
      }
      var staged := WithdrawnCopy(row.value, nextPendingId, RowList([row.value.userId]));
      assert staged.None?;
      return Fault;
    }

    /**
     * `/delete_review` as its comments intend: the review moves back to
     * `temp_reviews` under the anonymous account, so that the administrator can
     * anonymise its text and publish it again, and leaves `reviews`.
     */
    method WithdrawReviewIntended(confirmation: Field, reviewId: Field) returns (resp: Response)
      requires Valid()
      modifies this
      ensures Valid()
      ensures !(Filled(confirmation) && Filled(reviewId)) ==> resp == Refused(MissingData) && unchanged(this)
      ensures Filled(confirmation) && Filled(reviewId) ==>
                var row := FindReviewText(old(reviews), reviewId.value);
                if row.None? || !UserExists(old(users), row.value.userId)
                   || FindCompany(old(companies), row.value.companyId).None? then
                  resp == Fault && unchanged(this)
                else
                  resp == Done && State() == old(State()).(
                    pending := old(pending) + [StagedCopy(row.value, old(nextPendingId), AnonymousUserId)],
                    nextPendingId := old(nextPendingId) + 1,
                    reviews := DeleteId(old(reviews), row.value.id))
    {
      if !(Filled(confirmation) && Filled(reviewId)) {
        return Refused(MissingData);
      }
      var row := FindReviewText(reviews, reviewId.value);
      if row.None? || !UserExists(users, row.value.userId) || FindCompany(companies, row.value.companyId).None? {
        return Fault;
      }
      var staged := WithdrawnCopy(row.value, nextPendingId, Scalar(AnonymousUserId)).value;
      AppendFresh(pending, ReviewKey, nextPendingId, staged);
      pending := pending + [staged];
      nextPendingId := nextPendingId + 1;
      FilterDistinct(reviews, OtherId(row.value.id), ReviewKey);
      reviews := DeleteId(reviews, row.value.id);
      return Done;
    }

    /** The copy loop of `/delete_account`: one staging row per review, all under the anonymous account. */
    method StageAnonymized(owned: seq<Review>)
      requires DistinctBy(pending, ReviewKey) && KeysBelow(pending, ReviewKey, nextPendingId)
      modifies this
      ensures DistinctBy(pending, ReviewKey) && KeysBelow(pending, ReviewKey, nextPendingId)
      ensures State() == old(State()).(
                pending := old(pending) + AnonymizedCopies(owned, old(nextPendingId)),
                nextPendingId := old(nextPendingId) + |owned|)
    {
      var i := 0;
      while i < |owned|
        invariant 0 <= i <= |owned|
        invariant State() == old(State()).(
                    pending := old(pending) + AnonymizedCopies(owned[..i], old(nextPendingId)),
                    nextPendingId := old(nextPendingId) + i)
        invariant DistinctBy(pending, ReviewKey) && KeysBelow(pending, ReviewKey, nextPendingId)
      {
        var copy := StagedCopy(owned[i], nextPendingId, AnonymousUserId);
        AppendFresh(pending, ReviewKey, nextPendingId, copy);
        assert AnonymizedCopies(owned[..i + 1], old(nextPendingId))
            == AnonymizedCopies(owned[..i], old(nextPendingId)) + [copy];
        pending := pending + [copy];
        nextPendingId := nextPendingId + 1;
        i := i + 1;
      }
      assert owned[..i] == owned;
    }

    /** The delete loop of `/delete_account`: `DELETE FROM reviews WHERE id = ?` for each listed row. */
    method DeleteEach(owned: seq<Review>)
      modifies this
      ensures State() == old(State()).(reviews := Without(old(reviews), IdSet(owned)))
    {
      WithoutNothing(reviews);
      assert IdSet(owned[..0]) == {};
      var j := 0;
      while j < |owned|
        invariant 0 <= j <= |owned|
        invariant State() == old(State()).(reviews := Without(old(reviews), IdSet(owned[..j])))
      {
        WithoutStep(old(reviews), IdSet(owned[..j]), owned[j].id);
        assert IdSet(owned[..j + 1]) == IdSet(owned[..j]) + {owned[j].id} by {
          assert owned[..j + 1] == owned[..j] + [owned[j]];
        }
        reviews := DeleteId(reviews, owned[j].id);
        j := j + 1;
      }
      assert owned[..j] == owned;
    }

    /**
     * `/delete_account`: copy every review of the session user into `temp_reviews`
     * under the anonymous account, delete those reviews, then delete the user.
     */
    method DeleteAccount(confirmation: Field, sessionUser: int) returns (resp: Response)
      requires Valid()
      modifies this
      ensures Valid()
      ensures !Filled(confirmation) ==> resp == Refused(MissingData) && unchanged(this)
      ensures Filled(confirmation) ==>
                var owned := OwnedBy(old(reviews), sessionUser);
                var known := UserExists(old(users), sessionUser);
                && State() == old(State()).(
                     reviews := NotOwnedBy(old(reviews), sessionUser),
                     pending := old(pending) + AnonymizedCopies(owned, old(nextPendingId)),
                     nextPendingId := old(nextPendingId) + |owned|,
                     users := if known then DeleteUser(old(users), sessionUser) else old(users))
                && resp == if known then Done else Fault
    {
      if !Filled(confirmation) {
        return Refused(MissingData);
      }
      var owned := OwnedBy(reviews, sessionUser);
      StageAnonymized(owned);
      DeleteEach(owned);
      WithoutOwnIds(old(reviews), sessionUser);
      FilterDistinct(old(reviews), NotWrittenBy(sessionUser), ReviewKey);
      if !UserExists(users, sessionUser) {
        return Fault;
      }
      FilterDistinct(users, OtherUser(sessionUser), UserKey);
      FilterDistinct(users, OtherUser(sessionUser), EmailKey);
      users := DeleteUser(users, sessionUser);
      return Done;
    }

    /**
     * `/change_email`. `passwordOk` is the password checker's verdict on the posted
     * password against the stored hash; `normalized` is the e-mail validator's
     * verdict on the new address.
     */
    method ChangeEmail(currentEmail: Field, password: Field, newEmail: Field, again: Field,
                       sessionUser: int, passwordOk: bool, normalized: Option<string>)
      returns (resp: Response)
      requires Valid()
      modifies this
      ensures Valid()
      ensures var check := EmailChangeCheck(currentEmail, password, newEmail, again);
              var account := FindUser(old(users), sessionUser);
              && (check.Fail? ==> resp == Refused(check.why) && unchanged(this))
              && (check.Pass? && account.None? ==> resp == Fault && unchanged(this))
              && (check.Pass? && account.Some? && (account.value.email != currentEmail.value || !passwordOk) ==>
                    resp == Refused(WrongCredentials) && unchanged(this))
              && (check.Pass? && account.Some? && account.value.email == currentEmail.value && passwordOk ==>
                    match normalized
                    case None => resp == Refused(InvalidEmail) && unchanged(this)
                    case Some(address) =>
                      if EmailTakenByOther(old(users), address, sessionUser) then
                        resp == Refused(DuplicateEmail) && unchanged(this)
                      else
                        resp == Done && State() == old(State()).(users := SetEmail(old(users), sessionUser, address)))
    {
      var check := EmailChangeCheck(currentEmail, password, newEmail, again);
      if check.Fail? {
        return Refused(check.why);
      }
      var account := FindUser(users, sessionUser);
      if account.None? {
        return Fault;
      }
      if account.value.email != currentEmail.value || !passwordOk {
        return Refused(WrongCredentials);
      }
      if normalized.None? {
        return Refused(InvalidEmail);
      }
      if EmailTakenByOther(users, normalized.value, sessionUser) {
        return Refused(DuplicateEmail);
      }
      SetEmailKeeps(users, sessionUser, normalized.value, nextUserId);
      users := SetEmail(users, sessionUser, normalized.value);
      return Done;
    }

    /** The move `/admin_anonymize` and `/admin_allow` share: publish the posted row, drop the staged one. */
    method Publish(form: ModerationForm) returns (row: Option<Review>)
      requires Valid() && Complete(form)
      modifies this
      ensures Valid()
      ensures row == PublishedRow(form, old(nextReviewId))
      ensures row.None? ==> unchanged(this)
      ensures row.Some? ==> State() == old(State()).(
                reviews := old(reviews) + [row.value],
                nextReviewId := old(nextReviewId) + 1,
                pending := DeleteIdText(old(pending), form.reviewId.value))
    {
      row := PublishedRow(form, nextReviewId);
      if row.None? {
        return;
      }
      AppendFresh(reviews, ReviewKey, nextReviewId, row.value);
      reviews := reviews + [row.value];
      nextReviewId := nextReviewId + 1;
      if ParseInt(form.reviewId.value).Some? {
        FilterDistinct(pending, OtherId(ParseInt(form.reviewId.value).value), ReviewKey);
      }
      pending := DeleteIdText(pending, form.reviewId.value);
    }

    /** `/admin_anonymize`: publish the (possibly edited) review the console posts. */
    method AdminAnonymize(form: ModerationForm) returns (resp: Response)
      requires Valid()
      modifies this
      ensures Valid()
      ensures !Complete(form) ==> resp == Refused(MissingData) && unchanged(this)
      ensures Complete(form) ==>
                match PublishedRow(form, old(nextReviewId))
                case None => resp == Fault && unchanged(this)
                case Some(row) => resp == Done && State() == old(State()).(
                  reviews := old(reviews) + [row],
                  nextReviewId := old(nextReviewId) + 1,
                  pending := DeleteIdText(old(pending), form.reviewId.value))
    {
      if !Complete(form) {
        return Refused(MissingData);
      }
      var row := Publish(form);
      resp := if row.Some? then Done else Fault;
    }

    /** `/admin_allow`: publish the review, then look up its author's address for the mail. */
    method AdminAllow(form: ModerationForm) returns (resp: Response)
      requires Valid()
      modifies this
      ensures Valid()
      ensures !Complete(form) ==> resp == Refused(MissingData) && unchanged(this)
      ensures Complete(form) ==>
                match PublishedRow(form, old(nextReviewId))
                case None => resp == Fault && unchanged(this)
                case Some(row) =>
                  && State() == old(State()).(
                       reviews := old(reviews) + [row],
                       nextReviewId := old(nextReviewId) + 1,
                       pending := DeleteIdText(old(pending), form.reviewId.value))
                  && resp == if UserExists(old(users), row.userId) then Done else Fault
    {
      if !Complete(form) {
        return Refused(MissingData);
      }
      var row := Publish(form);
      if row.None? || !UserExists(users, row.value.userId) {
        return Fault;
      }
      return Done;
    }

    /** The author lookup the reject and delete handlers make before deleting. */
    predicate AuthorKnown(form: ModerationForm)
      requires Complete(form)
      reads this
    {
      ParseInt(form.userId.value).Some? && UserExists(users, ParseInt(form.userId.value).value)
    }

    /** `/admin_delete`: reject a staged review; nothing is published. */
    method AdminReject(form: ModerationForm) returns (resp: Response)
      requires Valid()
      modifies this
      ensures Valid()
      ensures !Complete(form) ==> resp == Refused(MissingData) && unchanged(this)
      ensures Complete(form) && !old(AuthorKnown(form)) ==> resp == Fault && unchanged(this)
      ensures Complete(form) && old(AuthorKnown(form)) ==>
                resp == Done && State() == old(State()).(pending := DeleteIdText(old(pending), form.reviewId.value))
    {
      if !Complete(form) {
        return Refused(MissingData);
      }
      if !AuthorKnown(form) {
        return Fault;
      }
      if ParseInt(form.reviewId.value).Some? {
        FilterDistinct(pending, OtherId(ParseInt(form.reviewId.value).value), ReviewKey);
      }
      pending := DeleteIdText(pending, form.reviewId.value);
      return Done;
    }

    /** `/admin_delete_older`: delete a published review. */
    method AdminDeleteOlder(form: ModerationForm) returns (resp: Response)
      requires Valid()
      modifies this
      ensures Valid()
      ensures !Complete(form) ==> resp == Refused(MissingData) && unchanged(this)
      ensures Complete(form) && !old(AuthorKnown(form)) ==> resp == Fault && unchanged(this)
      ensures Complete(form) && old(AuthorKnown(form)) ==>
                resp == Done && State() == old(State()).(reviews := DeleteIdText(old(reviews), form.reviewId.value))
    {
      if !Complete(form) {
        return Refused(MissingData);
      }
      if !AuthorKnown(form) {
        return Fault;
      }
      if ParseInt(form.reviewId.value).Some? {
        FilterDistinct(reviews, OtherId(ParseInt(form.reviewId.value).value), ReviewKey);
      }
      reviews := DeleteIdText(reviews, form.reviewId.value);
      return Done;
    }
  }
}
