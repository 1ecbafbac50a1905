/**
 * The administrator check of `admin_index` and the console it shows: the
 * session user must be the first `users` row whose role is 'admin'.
 */
module Admin {
  import opened Wrappers
  import opened Schema
  import opened Forms

  /** The position of the first row with role 'admin' (`SELECT id FROM users WHERE role = 'admin'`). */
  function FirstAdminIndex(us: seq<User>): (k: Option<nat>)
    ensures k.Some? ==>
              && k.value < |us| && us[k.value].role == Administrator
              && forall j :: 0 <= j < k.value ==> us[j].role != Administrator
    ensures k.None? ==> forall j :: 0 <= j < |us| ==> us[j].role != Administrator
  {
    if us == [] then None
    else if us[0].role == Administrator then Some(0)
    else match FirstAdminIndex(us[1..])
      case None => None
      case Some(k) => Some(k + 1)
  }

  /**
   * The check at the top of `admin_index`: with no admin row the lookup
   * `user_identity[0]` raises; otherwise only the first admin's id passes.
   */
  function AdminGate(us: seq<User>, sessionUser: int): (r: Check)
    ensures r.Crash? <==> forall j :: 0 <= j < |us| ==> us[j].role != Administrator
    ensures r.Pass? <==>
              exists k :: && 0 <= k < |us| && us[k].role == Administrator && us[k].id == sessionUser
                          && forall j :: 0 <= j < k ==> us[j].role != Administrator
    ensures r.Fail? ==> r.why == Unauthorized
  {
    match FirstAdminIndex(us)
    case None => Crash
    case Some(k) => if us[k].id == sessionUser then Pass else Fail(Unauthorized)
  }

  /**
   * An administrator account that comes after another one, and whose id differs
   * from every earlier administrator's, is turned away.
   */
  lemma OnlyFirstAdmin(us: seq<User>, i: nat, j: nat)
    requires i < j < |us| && us[i].role == Administrator && us[j].role == Administrator
    requires forall k :: 0 <= k < j && us[k].role == Administrator ==> us[k].id != us[j].id
    ensures AdminGate(us, us[j].id) == Fail(Unauthorized)
  {
    var k := FirstAdminIndex(us).value;
    assert k <= i;
  }

  /** One row of the moderation queue together with the length of its text. */
  datatype QueueEntry = QueueEntry(review: Review, length: nat)

  /** What `admin_index` answers. The sort of the published reviews by date is not modelled. */
  datatype AdminPage = Console(queue: seq<QueueEntry>, published: seq<Review>) | Denied(why: Refusal) | Crashed

  function AdminIndex(us: seq<User>, pending: seq<Review>, reviews: seq<Review>, sessionUser: int): (p: AdminPage)
    ensures p.Console? <==> AdminGate(us, sessionUser).Pass?
    ensures p.Crashed? <==> AdminGate(us, sessionUser).Crash?
    ensures p.Denied? <==> AdminGate(us, sessionUser).Fail?
    ensures p.Denied? ==> p.why == Unauthorized
    ensures p.Console? ==>
              && |p.queue| == |pending| && p.published == reviews
              && forall k :: 0 <= k < |pending| ==>
                   p.queue[k].review == pending[k] && p.queue[k].length == |pending[k].text|
  {
    match AdminGate(us, sessionUser)
    case Crash => Crashed
    case Fail(why) => Denied(why)
    case Pass =>
      Console(seq(|pending|, k requires 0 <= k < |pending| => QueueEntry(pending[k], |pending[k].text|)), reviews)
  }
}
