/** The import reconciler (`post_user_data`): after three accepted reads of the
    target, split and filter the candidates, refuse the whole import when a
    referenced role is missing or nothing is left, create the users one call at
    a time stopping at the first rejected reply, then re-read the target's
    users and check every intended `userId` is there. */
module ImportUsers {
  import opened Lists
  import opened Values
  import opened Remote
  import opened ImportFilter

  /** The body of one create call: the user's role list and the user record,
      which no longer has a `roles` key. */
  datatype CreateRequest = CreateRequest(roles: seq<string>, user: Record)

  function RequestFor(u: Record, roles: map<Value, seq<string>>): CreateRequest
    requires "userId" in u && u["userId"] in roles
  {
    CreateRequest(roles[u["userId"]], u)
  }

  /** The replies the target gives to the create calls, by call number. */
  type Replies = nat -> Response

  /** `(ok, requests)` is a run of the create loop over `filtered`: the calls
      issued are the first ones of the filtered list, in order, each with that
      user's roles; every call but the last was accepted; the loop stops at the
      first rejected reply, and reports success exactly when every user got an
      accepted call. */
  predicate IsCreateRun(filtered: seq<Record>, roles: map<Value, seq<string>>, replies: Replies,
                        ok: bool, requests: seq<CreateRequest>)
    requires RolesKnown(filtered, roles)
  {
    |requests| <= |filtered| &&
    (forall j :: 0 <= j < |requests| ==> requests[j] == RequestFor(filtered[j], roles)) &&
    (forall j :: 0 <= j < |requests| - 1 ==> Accepted(replies(j))) &&
    (ok <==> |requests| == |filtered| && forall j :: 0 <= j < |requests| ==> Accepted(replies(j))) &&
    (!ok ==> |requests| > 0 && !Accepted(replies(|requests| - 1)))
  }

  /** The number of leading create replies that are accepted, capped at `n`. */
  function FirstRejected(replies: Replies, n: nat): (k: nat)
    ensures k <= n
    ensures forall j :: 0 <= j < k ==> Accepted(replies(j))
    ensures k < n ==> !Accepted(replies(k))
  {
    if n == 0 then 0
    else
      var k := FirstRejected(replies, n - 1);
      if k < n - 1 then k
      else if Accepted(replies(n - 1)) then n
      else n - 1
  }

  /** The create loop as a value: its outcome flag and the requests issued. */
  function CreateRun(filtered: seq<Record>, roles: map<Value, seq<string>>, replies: Replies)
    : (run: (bool, seq<CreateRequest>))
    requires RolesKnown(filtered, roles)
    ensures IsCreateRun(filtered, roles, replies, run.0, run.1)
  {
    var k := FirstRejected(replies, |filtered|);
    var issued := if k < |filtered| then k + 1 else k;
    (k == |filtered|,
     seq(issued, j requires 0 <= j < issued && j < |filtered| => RequestFor(filtered[j], roles)))
  }

  /** `IsCreateRun` admits exactly one run. */
  lemma CreateRunIsDetermined(filtered: seq<Record>, roles: map<Value, seq<string>>, replies: Replies,
                              ok1: bool, r1: seq<CreateRequest>, ok2: bool, r2: seq<CreateRequest>)
    requires RolesKnown(filtered, roles)
    requires IsCreateRun(filtered, roles, replies, ok1, r1)
    requires IsCreateRun(filtered, roles, replies, ok2, r2)
    ensures ok1 == ok2 && r1 == r2
  {
  }

  /** The create loop: one call per filtered user, in order, returning as soon
      as a reply is rejected. */
  method CreateUsers(filtered: seq<Record>, roles: map<Value, seq<string>>, replies: Replies)
    returns (ok: bool, requests: seq<CreateRequest>)
    requires RolesKnown(filtered, roles)
    ensures IsCreateRun(filtered, roles, replies, ok, requests)
  {
    requests := [];
    for i := 0 to |filtered|
      invariant |requests| == i
      invariant forall j :: 0 <= j < i ==>
        requests[j] == RequestFor(filtered[j], roles) && Accepted(replies(j))
    {
      var user := filtered[i];
      var body := CreateRequest(roles[user["userId"]], user);
      requests := requests + [body];
      if !Accepted(replies(i)) {
        return false, requests;
      }
    }
    return true, requests;
  }

  /** The diagnostic the import ends with. */
  datatype Report =
    | InfoRejected
    | UsersRejected
    | RolesRejected
    | MissingRole(role: string)
    | NothingToCreate
    | CreateRejected
    | RefreshRejected
    | NotCreated(id: Value)
    | AllCreated

  /** What one import returns: Python's `True`, `False` or `None` (as
      `Some(true)`, `Some(false)`, `None`), the final diagnostic, and the
      removal reports of the filter. */
  datatype Outcome = Outcome(result: Option<bool>, report: Report, removed: seq<Removal>)

  /** Everything the import reads from the target: the health reply, the user
      listing with its `userId`s, the role listing with its role names, the
      create replies by call number, and the refreshed user listing. */
  datatype Target = Target(
    info: Response,
    usersReply: Response, existingIds: seq<Value>,
    rolesReply: Response, roleNames: seq<string>,
    createReplies: Replies,
    refreshReply: Response, refreshedIds: seq<Value>)

  predicate ReadsAccepted(t: Target) {
    Accepted(t.info) && Accepted(t.usersReply) && Accepted(t.rolesReply)
  }

  /** The candidates that survive the filter, without their `roles` key. */
  function FilteredUsers(t: Target, cs: seq<Record>): (f: seq<Record>)
    requires AreCandidates(cs)
    ensures RolesKnown(f, NewRoles(cs))
  {
    RolesKnownAfterSplit(cs);
    FilterRolesKnown(WithoutRoles(cs), NewRoles(cs), t.existingIds);
    Filter(WithoutRoles(cs), t.existingIds)
  }

  function FilteredRoles(t: Target, cs: seq<Record>): (table: RoleTable)
    requires AreCandidates(cs)
    ensures OrderCovered(table) && RolesKnown(FilteredUsers(t, cs), table.entries)
  {
    FilteredTable(FilteredUsers(t, cs), NewRoles(cs))
  }

  /** The whole reconciliation, step by step in the source's order. */
  function Reconcile(t: Target, cs: seq<Record>): (Outcome, seq<CreateRequest>)
    requires AreCandidates(cs)
  {
    if !Accepted(t.info) then (Outcome(Some(false), InfoRejected, []), [])
    else if !Accepted(t.usersReply) then (Outcome(Some(false), UsersRejected, []), [])
    else if !Accepted(t.rolesReply) then (Outcome(Some(false), RolesRejected, []), [])
    else
      var filtered := FilteredUsers(t, cs);
      var table := FilteredRoles(t, cs);
      var removed := Removals(WithoutRoles(cs), t.existingIds);
      match FirstAbsent(Referenced(table), t.roleNames)
      case Some(role) => (Outcome(Some(false), MissingRole(role), removed), [])
      case None =>
        if filtered == [] then (Outcome(Some(false), NothingToCreate, removed), [])
        else
          var run := CreateRun(filtered, table.entries, t.createReplies);
          if !run.0 then (Outcome(Some(false), CreateRejected, removed), run.1)
          else if t.refreshReply.status != OkStatus then (Outcome(None, RefreshRejected, removed), run.1)
          else if Contains(t.refreshReply.text, ErrorMarker) then
            (Outcome(Some(false), RefreshRejected, removed), run.1)
          else
            match FirstAbsent(Ids(filtered), t.refreshedIds)
            case Some(id) => (Outcome(Some(false), NotCreated(id), removed), run.1)
            case None => (Outcome(Some(true), AllCreated, removed), run.1)
  }

  /** `post_user_data` over the decoded replies. The caller's records lose
      their `roles` key once the health check has passed, as in the source. */
  method PostUserData(t: Target, newUsers: array<Record>) returns (outcome: Outcome, requests: seq<CreateRequest>)
    requires AreCandidates(newUsers[..])
    modifies newUsers
    ensures (outcome, requests) == Reconcile(t, old(newUsers[..]))
    ensures newUsers[..] == if Accepted(t.info) then WithoutRoles(old(newUsers[..])) else old(newUsers[..])
  {
    if !Accepted(t.info) {
      return Outcome(Some(false), InfoRejected, []), [];
    }
    ghost var candidates := newUsers[..];
    var newRoles := SplitRoles(newUsers);
    if !Accepted(t.usersReply) {
      return Outcome(Some(false), UsersRejected, []), [];
    }
    if !Accepted(t.rolesReply) {
      return Outcome(Some(false), RolesRejected, []), [];
    }
    RolesKnownAfterSplit(candidates);
    var filtered, table, removed := FilterCandidates(newUsers[..], newRoles, t.existingIds);
    assert filtered == FilteredUsers(t, candidates) && table == FilteredRoles(t, candidates);
    var referenced := ReferencedRoles(table);
    var missing := FindAbsent(referenced, t.roleNames);
    if missing.Some? {
      return Outcome(Some(false), MissingRole(missing.value), removed), [];
    }
    if |filtered| == 0 {
      return Outcome(Some(false), NothingToCreate, removed), [];
    }
    var ok;
    ok, requests := CreateUsers(filtered, table.entries, t.createReplies);
    var run := CreateRun(filtered, table.entries, t.createReplies);
    CreateRunIsDetermined(filtered, table.entries, t.createReplies, ok, requests, run.0, run.1);
    if !ok {
      return Outcome(Some(false), CreateRejected, removed), requests;
    }
    if t.refreshReply.status == OkStatus {
      if Contains(t.refreshReply.text, ErrorMarker) {
        return Outcome(Some(false), RefreshRejected, removed), requests;
      }
    } else {
      return Outcome(None, RefreshRejected, removed), requests;
    }
    var toCreate := Ids(filtered);
    var notCreated := FindAbsent(toCreate, t.refreshedIds);
    if notCreated.Some? {
      return Outcome(Some(false), NotCreated(notCreated.value), removed), requests;
    }
    return Outcome(Some(true), AllCreated, removed), requests;
  }
}
