/**
 * The three-day edit window: the account page marks each of the user's
 * published reviews enabled or disabled, and the edit passthrough refuses
 * to open a review whose window has closed.
 */
module EditWindow {
  import opened Wrappers
  import opened Text
  import opened Schema
  import opened Sequences
  import opened Tables
  import opened Forms

  /** Three days, in seconds. */
  const WindowSeconds: int := 3 * 24 * 60 * 60

  /**
   * A review written at `written` may still be changed at `now`: not `now - 3 days > written`.
   * The window is open from the moment of writing up to and including 259200 seconds later.
   */
  predicate EditAllowed(written: int, now: int): (ok: bool)
    ensures ok <==> now <= written + 259200
    ensures now <= written ==> ok
  {
    !(now - WindowSeconds > written)
  }

  /** One line of the account page: a review, its company's name and its edit state. */
  datatype AccountEntry = AccountEntry(review: Review, companyName: string, enabled: bool)

  /** The account-page lines for one review: one per company row with the review's company id. */
  function Entries(r: Review, cs: seq<Company>, now: int): (v: seq<AccountEntry>)
    ensures forall e :: e in v ==>
              && e.review == r && e.enabled == EditAllowed(r.time, now)
              && exists c :: c in cs && c.id == r.companyId && c.name == e.companyName
    ensures (exists c :: c in cs && c.id == r.companyId) ==> v != []
  {
    if cs == [] then []
    else
      var rest := Entries(r, cs[1..], now);
      assert forall c :: c in cs[1..] ==> c in cs;
      assert cs[0] in cs && forall c :: c in cs ==> c == cs[0] || c in cs[1..];
      (if cs[0].id == r.companyId then [AccountEntry(r, cs[0].name, EditAllowed(r.time, now))] else []) + rest
  }

  /**
   * The account page (the order of its lines is not modelled): the user's
   * published reviews joined with their companies, each marked by EditAllowed.
   */
  function AccountView(rs: seq<Review>, cs: seq<Company>, uid: int, now: int): (v: seq<AccountEntry>)
    ensures forall e :: e in v ==>
              && e.review in rs && e.review.userId == uid && e.enabled == EditAllowed(e.review.time, now)
              && exists c :: c in cs && c.id == e.review.companyId && c.name == e.companyName
    ensures forall r :: r in rs && r.userId == uid && (exists c :: c in cs && c.id == r.companyId) ==>
              exists e :: e in v && e.review == r
  {
    if rs == [] then []
    else
      var rest := AccountView(rs[1..], cs, uid, now);
      var here := if rs[0].userId == uid then Entries(rs[0], cs, now) else [];
      assert forall r :: r in rs[1..] ==> r in rs;
      assert forall r :: r in rs ==> r == rs[0] || r in rs[1..];
      assert here != [] ==> here[0] in here;
      here + rest
  }

  /** What the edit passthrough answers. */
  datatype EditPage =
    | Refused(why: Refusal)
    | Serve(review: Review, companyName: string, length: nat)
    | Crashed

  /**
   * `edit_review_passthrough`: converts the posted id with `int(...)`, looks the
   * review up, refuses it when its window has closed, and otherwise serves it
   * with its company's name and the length of its text.
   */
  function EditPassthrough(rs: seq<Review>, cs: seq<Company>, reviewId: Field, now: int): (p: EditPage)
    ensures reviewId.None? ==> p.Crashed?
    ensures var found := if reviewId.Some? then FindReviewText(rs, reviewId.value) else None;
            && (p.Refused? <==> found.Some? && !EditAllowed(found.value.time, now))
            && (p.Serve? <==>
                  found.Some? && EditAllowed(found.value.time, now)
                  && FindCompany(cs, found.value.companyId).Some?)
            && (p.Serve? ==>
                  && p.review == found.value
                  && p.companyName == FindCompany(cs, found.value.companyId).value.name)
    ensures p.Refused? ==> p.why == EditWindowExpired
    ensures p.Serve? ==>
              && p.review in rs && reviewId.Some? && Some(p.review.id) == ParseInt(reviewId.value)
              && EditAllowed(p.review.time, now) && p.length == |p.review.text|
  {
    if reviewId.None? then Crashed
    else match ParseInt(reviewId.value)
      case None => Crashed
      case Some(id) =>
        match FindReview(rs, id)
        case None => Crashed
        case Some(r) =>
          if !EditAllowed(r.time, now) then Refused(EditWindowExpired)
          else match FindCompany(cs, r.companyId)
            case None => Crashed
            case Some(c) => Serve(r, c.name, |r.text|)
  }

  /**
   * For every line of the account page, the passthrough called with that
   * review's id refuses exactly when the line is disabled, and serves the
   * review otherwise; a line is enabled exactly when the review is at most
   * three days (259200 seconds) old.
   */
  lemma PassthroughAgreesWithAccount(rs: seq<Review>, cs: seq<Company>, uid: int, now: int, e: AccountEntry)
    requires DistinctBy(rs, ReviewKey)
    requires e in AccountView(rs, cs, uid, now)
    ensures var p := EditPassthrough(rs, cs, Some(ShowInt(e.review.id)), now);
            && (p.Refused? <==> !e.enabled)
            && (e.enabled ==> p.Serve? && p.review == e.review)
    ensures e.enabled <==> now - e.review.time <= 259200
  {
    ParseShow(e.review.id);
    FindStored(rs, e.review);
  }
}
