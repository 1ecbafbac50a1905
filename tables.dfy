/**
 * The table operations the handlers perform, as functions from the old rows
 * to the new ones: `DELETE ... WHERE id = ?`, `UPDATE reviews ... WHERE id = ?`,
 * the per-user selections used when an account is closed, and the lookups
 * `SELECT ... WHERE id = ?` / `WHERE company_name = ?`.
 */
module Tables {
  import opened Wrappers
  import opened Text
  import opened Schema
  import opened Sequences

  // Row conditions, named so that every use refers to the same function value.

  function OtherId(id: int): Review -> bool { (r: Review) => r.id != id }

  function OutsideIds(ids: set<int>): Review -> bool { (r: Review) => r.id !in ids }

  function WrittenBy(uid: int): Review -> bool { (r: Review) => r.userId == uid }

  function NotWrittenBy(uid: int): Review -> bool { (r: Review) => r.userId != uid }

  function OtherUser(uid: int): User -> bool { (u: User) => u.id != uid }

  function NamedAs(name: string): Company -> bool { (c: Company) => c.name == name }

  // ---------------------------------------------------------------- reviews and temp_reviews

  /** The ids present in a review table. */
  function IdSet(rs: seq<Review>): set<int>
  {
    set r | r in rs :: r.id
  }

  /** `DELETE FROM reviews WHERE id = ?` (and the same on `temp_reviews`). */
  function DeleteId(rs: seq<Review>, id: int): seq<Review>
  {
    Filter(rs, OtherId(id))
  }

  /** The rows whose id is not in `ids`: what is left after deleting each of them. */
  function Without(rs: seq<Review>, ids: set<int>): seq<Review>
  {
    Filter(rs, OutsideIds(ids))
  }

  /** `SELECT ... FROM reviews WHERE user_id = ?` */
  function OwnedBy(rs: seq<Review>, uid: int): seq<Review>
  {
    Filter(rs, WrittenBy(uid))
  }

  function NotOwnedBy(rs: seq<Review>, uid: int): seq<Review>
  {
    Filter(rs, NotWrittenBy(uid))
  }

  /** The first row with the given id (`rows[0]` of `SELECT ... WHERE id = ?`), if any. */
  function FindReview(rs: seq<Review>, id: int): (r: Option<Review>)
    ensures r.Some? ==> r.value in rs && r.value.id == id
    ensures r.None? <==> id !in IdSet(rs)
  {
    if rs == [] then None
    else if rs[0].id == id then Some(rs[0])
    else (assert forall x :: x in rs[1..] ==> x in rs; FindReview(rs[1..], id))
  }

  /** `UPDATE reviews SET review_text = ?, rating = ?, date_time = ? WHERE id = ?` */
  function UpdateReview(rs: seq<Review>, id: int, text: string, rating: int, time: int): (r: seq<Review>)
    ensures |r| == |rs|
    ensures forall k :: 0 <= k < |rs| ==>
              r[k].id == rs[k].id && r[k].companyId == rs[k].companyId && r[k].userId == rs[k].userId
    ensures forall k :: 0 <= k < |rs| && rs[k].id != id ==> r[k] == rs[k]
    ensures forall k :: 0 <= k < |rs| && rs[k].id == id ==>
              r[k].text == text && r[k].rating == rating && r[k].time == time
  {
    seq(|rs|, k requires 0 <= k < |rs| =>
      if rs[k].id == id then rs[k].(text := text, rating := rating, time := time) else rs[k])
  }

  /** Two rows carry the same review: text, rating, company and date. */
  predicate SameContent(a: Review, b: Review)
  {
    a.text == b.text && a.rating == b.rating && a.companyId == b.companyId && a.time == b.time
  }

  /** The row inserted into `temp_reviews` for `r`, under a new id and the given author. */
  function StagedCopy(r: Review, id: int, owner: int): (s: Review)
    ensures SameContent(s, r) && s.id == id && s.userId == owner
  {
    Review(id, r.text, r.rating, r.companyId, owner, r.time)
  }

  /** The staging rows `delete_account` inserts: one per review, all under the anonymous account. */
  function AnonymizedCopies(rs: seq<Review>, firstId: int): (r: seq<Review>)
    ensures |r| == |rs|
    ensures forall k :: 0 <= k < |rs| ==>
              SameContent(r[k], rs[k]) && r[k].userId == AnonymousUserId && r[k].id == firstId + k
  {
    seq(|rs|, k requires 0 <= k < |rs| => StagedCopy(rs[k], firstId + k, AnonymousUserId))
  }

  /** Deleting an id removes exactly one row when the id is present and the ids are distinct. */
  lemma {:induction false} DeleteIdCount(rs: seq<Review>, id: int)
    requires DistinctBy(rs, ReviewKey)
    ensures |DeleteId(rs, id)| == if id in IdSet(rs) then |rs| - 1 else |rs|
  {
    if rs != [] {
      var t := rs[1..];
      DistinctCons(rs, ReviewKey);
      assert rs == [rs[0]] + t;
      assert IdSet(rs) == {rs[0].id} + IdSet(t);
      if rs[0].id == id {
        assert forall x :: x in t ==> OtherId(id)(x);
        FilterKeepsAll(t, OtherId(id));
      } else {
        DeleteIdCount(t, id);
      }
    }
  }

  /** Deleting one more id after a batch of deletions is deleting the larger batch. */
  lemma WithoutStep(rs: seq<Review>, ids: set<int>, id: int)
    ensures DeleteId(Without(rs, ids), id) == Without(rs, ids + {id})
  {
    FilterFilter(rs, OutsideIds(ids), OtherId(id), OutsideIds(ids + {id}));
  }

  lemma WithoutNothing(rs: seq<Review>)
    ensures Without(rs, {}) == rs
  {
    FilterKeepsAll(rs, OutsideIds({}));
  }

  /**
   * With distinct ids, deleting the ids of a user's reviews deletes exactly that
   * user's reviews and keeps every other row in order.
   */
  lemma WithoutOwnIds(rs: seq<Review>, uid: int)
    requires DistinctBy(rs, ReviewKey)
    ensures Without(rs, IdSet(OwnedBy(rs, uid))) == NotOwnedBy(rs, uid)
  {
    var owned := OwnedBy(rs, uid);
    forall r | r in rs ensures OutsideIds(IdSet(owned))(r) == NotWrittenBy(uid)(r) {
      if r.id in IdSet(owned) {
        var o :| o in owned && o.id == r.id;
        SameKeySameRow(rs, ReviewKey, o, r);
      }
    }
    FilterSame(rs, OutsideIds(IdSet(owned)), NotWrittenBy(uid));
  }

  /** A user's reviews and everybody else's partition the table, and the rest has none of theirs. */
  lemma OwnershipSplit(rs: seq<Review>, uid: int)
    ensures |OwnedBy(rs, uid)| + |NotOwnedBy(rs, uid)| == |rs|
    ensures OwnedBy(NotOwnedBy(rs, uid), uid) == []
  {
    FilterSplit(rs, WrittenBy(uid), NotWrittenBy(uid));
    FilterKeepsNone(NotOwnedBy(rs, uid), WrittenBy(uid));
  }

  /** With distinct ids, the first row with a stored row's id is that row. */
  lemma FindStored(rs: seq<Review>, r: Review)
    requires DistinctBy(rs, ReviewKey) && r in rs
    ensures FindReview(rs, r.id) == Some(r)
  {
    var found := FindReview(rs, r.id);
    SameKeySameRow(rs, ReviewKey, found.value, r);
  }

  /**
   * The row matched by an id that arrives as form text: SQLite compares the text
   * with the integer column, so text that is not an integer matches nothing.
   */
  function FindReviewText(rs: seq<Review>, idText: string): (r: Option<Review>)
    ensures r.Some? ==> r.value in rs && ParseInt(idText) == Some(r.value.id)
    ensures r.None? <==> ParseInt(idText).None? || ParseInt(idText).value !in IdSet(rs)
  {
    match ParseInt(idText)
    case None => None
    case Some(id) => FindReview(rs, id)
  }

  /**
   * `DELETE ... WHERE id = ?` with the id as form text: afterwards the text matches
   * no row, every row it did not match is still there, and no row is new.
   */
  function DeleteIdText(rs: seq<Review>, idText: string): (r: seq<Review>)
    ensures FindReviewText(r, idText).None?
    ensures forall x :: x in rs && ParseInt(idText) != Some(x.id) ==> x in r
    ensures forall x :: x in r ==> x in rs
  {
    match ParseInt(idText)
    case None => rs
    case Some(id) => DeleteIdGone(rs, id); DeleteId(rs, id)
  }

  /** An edit leaves every row's id, company and author alone, so the ids stay distinct and fresh. */
  lemma UpdateKeepsKeys(rs: seq<Review>, id: int, text: string, rating: int, time: int, bound: int)
    requires DistinctBy(rs, ReviewKey) && KeysBelow(rs, ReviewKey, bound)
    ensures var r := UpdateReview(rs, id, text, rating, time);
            DistinctBy(r, ReviewKey) && KeysBelow(r, ReviewKey, bound) && IdSet(r) == IdSet(rs)
  {
    var r := UpdateReview(rs, id, text, rating, time);
    forall i, j | 0 <= i < j < |r| ensures ReviewKey(r[i]) != ReviewKey(r[j]) {
      assert ReviewKey(rs[i]) != ReviewKey(rs[j]);
    }
    forall x | x in r ensures x.id < bound && x.id in IdSet(rs) {
      var k :| 0 <= k < |r| && r[k] == x;
      assert rs[k] in rs;
    }
    forall n | n in IdSet(rs) ensures n in IdSet(r) {
      var x :| x in rs && x.id == n;
      var k :| 0 <= k < |rs| && rs[k] == x;
      assert r[k] in r;
    }
  }

  /** After an edit, the row looked up by the edited id is the old one with the new text, rating and date. */
  lemma {:induction false} UpdateFind(rs: seq<Review>, id: int, text: string, rating: int, time: int)
    ensures var found := FindReview(UpdateReview(rs, id, text, rating, time), id);
            match FindReview(rs, id)
            case None => found.None?
            case Some(old_) => found == Some(old_.(text := text, rating := rating, time := time))
  {
    if rs != [] {
      var r := UpdateReview(rs, id, text, rating, time);
      assert r[1..] == UpdateReview(rs[1..], id, text, rating, time);
      UpdateFind(rs[1..], id, text, rating, time);
    }
  }

  /** After `DELETE ... WHERE id = ?` no row with that id is left, and every other row is. */
  lemma DeleteIdGone(rs: seq<Review>, id: int)
    ensures IdSet(DeleteId(rs, id)) == IdSet(rs) - {id}
    ensures forall r :: r in rs && r.id != id ==> r in DeleteId(rs, id)
  {
    var d := DeleteId(rs, id);
    forall n | n in IdSet(rs) - {id} ensures n in IdSet(d) {
      var x :| x in rs && x.id == n;
      assert OtherId(id)(x);
    }
    forall r | r in rs && r.id != id ensures r in d {
      assert OtherId(id)(r);
    }
  }

  /**
   * Deleting a stored row by its id, with distinct ids: exactly that row leaves the
   * table and every other row stays.
   */
  lemma DeleteStored(rs: seq<Review>, r: Review)
    requires DistinctBy(rs, ReviewKey) && r in rs
    ensures |DeleteId(rs, r.id)| == |rs| - 1
    ensures r !in DeleteId(rs, r.id)
    ensures forall x :: x in rs && x != r ==> x in DeleteId(rs, r.id)
  {
    DeleteIdCount(rs, r.id);
    DeleteIdGone(rs, r.id);
    forall x | x in rs && x != r ensures x in DeleteId(rs, r.id) {
      if x.id == r.id {
        SameKeySameRow(rs, ReviewKey, x, r);
      }
    }
  }

  // ---------------------------------------------------------------- users

  /** Some `users` row has this id (`SELECT email FROM users WHERE id = ?` returns a row). */
  predicate UserExists(us: seq<User>, uid: int)
  {
    exists u :: u in us && u.id == uid
  }

  /** The first `users` row with this id, if any. */
  function FindUser(us: seq<User>, uid: int): (r: Option<User>)
    ensures r.Some? ==> r.value in us && r.value.id == uid
    ensures r.None? <==> !UserExists(us, uid)
  {
    if us == [] then None
    else if us[0].id == uid then Some(us[0])
    else (assert forall x :: x in us[1..] ==> x in us; FindUser(us[1..], uid))
  }

  /** `DELETE FROM users WHERE id = ?` */
  function DeleteUser(us: seq<User>, uid: int): seq<User>
  {
    Filter(us, OtherUser(uid))
  }

  /** After `DELETE FROM users WHERE id = ?` that id is gone and every other account is kept. */
  lemma DeleteUserGone(us: seq<User>, uid: int)
    ensures !UserExists(DeleteUser(us, uid), uid)
    ensures forall u :: u in us && u.id != uid ==> u in DeleteUser(us, uid)
  {
    forall u | u in us && u.id != uid ensures u in DeleteUser(us, uid) {
      assert OtherUser(uid)(u);
    }
  }

  /** Some `users` row has this e-mail address (the UNIQUE constraint would fail). */
  predicate EmailTaken(us: seq<User>, email: string)
  {
    exists u :: u in us && u.email == email
  }

  /** Some account other than `uid` already uses this address. */
  predicate EmailTakenByOther(us: seq<User>, email: string, uid: int)
  {
    exists u :: u in us && u.email == email && u.id != uid
  }

  /**
   * `UPDATE users SET email = ? WHERE id = ?`: only the e-mail column changes, it
   * changes on the rows with that id, and every other account is untouched.
   */
  function SetEmail(us: seq<User>, uid: int, email: string): (r: seq<User>)
    ensures |r| == |us|
    ensures forall k :: 0 <= k < |us| ==> r[k].(email := us[k].email) == us[k]
    ensures forall k :: 0 <= k < |us| && us[k].id == uid ==> r[k].email == email
    ensures forall u :: u in us && u.id != uid ==> u in r
    ensures UserExists(r, uid) <==> UserExists(us, uid)
  {
    seq(|us|, k requires 0 <= k < |us| => if us[k].id == uid then us[k].(email := email) else us[k])
  }

  /**
   * Changing one account's address keeps ids unique and fresh, and keeps addresses
   * unique when no other account uses the new one.
   */
  lemma SetEmailKeeps(us: seq<User>, uid: int, email: string, bound: int)
    requires DistinctBy(us, UserKey) && DistinctBy(us, EmailKey) && KeysBelow(us, UserKey, bound)
    requires !EmailTakenByOther(us, email, uid)
    ensures var r := SetEmail(us, uid, email);
            DistinctBy(r, UserKey) && DistinctBy(r, EmailKey) && KeysBelow(r, UserKey, bound)
  {
    var r := SetEmail(us, uid, email);
    forall i, j | 0 <= i < j < |r| ensures UserKey(r[i]) != UserKey(r[j]) && EmailKey(r[i]) != EmailKey(r[j]) {
      assert UserKey(us[i]) != UserKey(us[j]) && EmailKey(us[i]) != EmailKey(us[j]);
      assert us[i] in us && us[j] in us;
    }
    forall x | x in r ensures x.id < bound {
      var k :| 0 <= k < |r| && r[k] == x;
      assert us[k] in us;
    }
  }

  /** After the update, the account looked up by that id is the old one with the new address. */
  lemma {:induction false} SetEmailFind(us: seq<User>, uid: int, email: string)
    ensures var found := FindUser(SetEmail(us, uid, email), uid);
            match FindUser(us, uid)
            case None => found.None?
            case Some(u) => found == Some(u.(email := email))
  {
    if us != [] {
      var r := SetEmail(us, uid, email);
      assert r[1..] == SetEmail(us[1..], uid, email);
      SetEmailFind(us[1..], uid, email);
    }
  }

  // ---------------------------------------------------------------- companies

  /** `SELECT company_name FROM companies`, in table order. */
  function Names(cs: seq<Company>): seq<string>
  {
    seq(|cs|, k requires 0 <= k < |cs| => cs[k].name)
  }

  /** The name list holds exactly the companies' names: each company's, and nothing else. */
  lemma NamesHold(cs: seq<Company>)
    ensures |Names(cs)| == |cs|
    ensures forall c :: c in cs ==> c.name in Names(cs)
    ensures forall n :: n in Names(cs) ==> exists c :: c in cs && c.name == n
  {
    forall n | n in Names(cs) ensures exists c :: c in cs && c.name == n {
      var k :| 0 <= k < |cs| && Names(cs)[k] == n;
      assert cs[k] in cs;
    }
    forall c | c in cs ensures c.name in Names(cs) {
      var k :| 0 <= k < |cs| && cs[k] == c;
      assert Names(cs)[k] == c.name;
    }
  }

  lemma NamesAppend(a: seq<Company>, b: seq<Company>)
    ensures Names(a + b) == Names(a) + Names(b)
  {
  }

  /** `SELECT * FROM companies WHERE company_name = ?` */
  function CompaniesNamed(cs: seq<Company>, name: string): seq<Company>
  {
    Filter(cs, NamedAs(name))
  }

  lemma NamedExists(cs: seq<Company>, name: string)
    requires name in Names(cs)
    ensures CompaniesNamed(cs, name) != []
  {
    var k :| 0 <= k < |cs| && Names(cs)[k] == name;
    assert cs[k] in CompaniesNamed(cs, name);
  }

  /** With unique names, looking up a stored company's name gives back that company alone. */
  lemma {:induction false} OnlyCompanyNamed(cs: seq<Company>, c: Company)
    requires DistinctBy(cs, NameKey) && c in cs
    ensures CompaniesNamed(cs, c.name) == [c]
  {
    var t := cs[1..];
    DistinctCons(cs, NameKey);
    if cs[0] == c {
      FilterKeepsNone(t, NamedAs(c.name));
    } else {
      assert c in t;
      assert cs[0].name != c.name;
      OnlyCompanyNamed(t, c);
    }
  }

  /** `SELECT id FROM companies WHERE company_name = ?` followed by `rows[0]["id"]`. */
  function CompanyIdFor(cs: seq<Company>, name: string): (r: Option<int>)
    ensures r.Some? <==> name in Names(cs)
    ensures r.Some? ==> exists c :: c in cs && c.name == name && c.id == r.value
  {
    var named := CompaniesNamed(cs, name);
    if named == [] then
      assert name !in Names(cs) by {
        if name in Names(cs) {
          NamedExists(cs, name);
        }
      }
      None
    else
      assert named[0] in named;
      NamesHold(cs);
      Some(named[0].id)
  }

  /** With unique names, a stored company's name leads back to that company's id. */
  lemma CompanyIdForStored(cs: seq<Company>, c: Company)
    requires DistinctBy(cs, NameKey) && c in cs
    ensures CompanyIdFor(cs, c.name) == Some(c.id)
  {
    OnlyCompanyNamed(cs, c);
  }

  /** The first company with the given id (`rows[0]` of a join on `companies.id`), if any. */
  function FindCompany(cs: seq<Company>, id: int): (r: Option<Company>)
    ensures r.Some? ==> r.value in cs && r.value.id == id
    ensures r.None? <==> forall c :: c in cs ==> c.id != id
  {
    if cs == [] then None
    else if cs[0].id == id then Some(cs[0])
    else (assert forall x :: x in cs[1..] ==> x in cs; FindCompany(cs[1..], id))
  }
}
