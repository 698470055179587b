/** Concrete runs of the import reconciler on small targets. */
module ImportScenarios {
  import opened Lists
  import opened Values
  import opened Remote
  import opened ImportFilter
  import opened ImportUsers
  import opened ImportProperties

  const Ok: Response := Response(200, "{}")

  function User(id: string, kind: string, roles: seq<string>): Record {
    map["userId" := Str(id), "userType" := Str(kind), "roles" := StrList(roles)]
  }

  /** A target whose every reply is accepted. */
  function Healthy(existing: seq<Value>, roleNames: seq<string>, refreshed: seq<Value>): Target {
    Target(Ok, Ok, existing, Ok, roleNames, j => Ok, Ok, refreshed)
  }

  /** Filtering, the removal reports and the role map of one record. */
  lemma OneUnfolds(c: Record, existing: seq<Value>)
    requires IsCandidate(c)
    ensures WithoutRoles([c]) == [c - {"roles"}]
    ensures Filter([c - {"roles"}], existing) == if Kept(c, existing) then [c - {"roles"}] else []
    ensures Removals([c - {"roles"}], existing) ==
      if AlreadyOnTarget(c, existing) then [AlreadyExists(c["userId"])]
      else if !IsSso(c) then [NotSso(c["userId"])]
      else []
    ensures NewRoles([c]) == map[c["userId"] := c["roles"].items]
  {
    var u: Record := c - {"roles"};
    assert [u][..0] == [];
    assert [c][..0] == [];
    assert u["userId"] == c["userId"];
    assert IsSso(u) == IsSso(c);
  }

  /** The same for two records, in order. */
  lemma PairUnfolds(a: Record, b: Record, existing: seq<Value>)
    requires IsCandidate(a) && IsCandidate(b)
    ensures WithoutRoles([a, b]) == [a - {"roles"}, b - {"roles"}]
    ensures Filter(WithoutRoles([a, b]), existing) ==
      Filter([a - {"roles"}], existing) + Filter([b - {"roles"}], existing)
    ensures Removals(WithoutRoles([a, b]), existing) ==
      Removals([a - {"roles"}], existing) + Removals([b - {"roles"}], existing)
    ensures NewRoles([a, b]) == NewRoles([a])[b["userId"] := b["roles"].items]
  {
    var us := WithoutRoles([a, b]);
    assert us[..1] == [a - {"roles"}];
    assert [a, b][..1] == [a];
    FilterAppend([a - {"roles"}], [b - {"roles"}], existing);
    assert [a - {"roles"}] + [b - {"roles"}] == us;
    OneUnfolds(b, existing);
    assert Removals(us, existing) == Removals(us[..1], existing) + Removals([b - {"roles"}], existing);
  }

  /** The role table and referenced roles of a single filtered record. */
  lemma SingleFilteredTable(u: Record, newRoles: map<Value, seq<string>>)
    requires "userId" in u && u["userId"] in newRoles && |newRoles[u["userId"]]| == 1
    ensures RolesKnown([u], newRoles)
    ensures FilteredTable([u], newRoles) == RoleTable([u["userId"]], map[u["userId"] := newRoles[u["userId"]]])
    ensures Referenced(FilteredTable([u], newRoles)) == newRoles[u["userId"]]
  {
    var id := u["userId"];
    var rs := newRoles[id];
    assert Ids([u]) == [id];
    assert [id][..0] == [];
    assert Dedup([id]) == [id];
    var table := FilteredTable([u], newRoles);
    assert TableValues(table) == [rs];
    assert TableValues(table)[..0] == [];
    assert Flatten(TableValues(table)) == rs;
    assert rs[..0] == [];
    assert rs == [rs[0]];
    assert Dedup(rs) == rs;
  }

  /** A single create call answered 200 with a body free of the marker. */
  lemma SingleAcceptedCreate(u: Record, roles: map<Value, seq<string>>, replies: Replies)
    requires "userId" in u && u["userId"] in roles && replies(0) == Ok
    ensures RolesKnown([u], roles)
    ensures CreateRun([u], roles, replies) == (true, [CreateRequest(roles[u["userId"]], u)])
  {
    assert !Contains(Ok.text, ErrorMarker);
    assert FirstRejected(replies, 1) == 1;
    var run := CreateRun([u], roles, replies);
    assert |run.1| == 1 && run.1[0] == CreateRequest(roles[u["userId"]], u);
    assert run.1 == [CreateRequest(roles[u["userId"]], u)];
  }

  /** A run in which exactly one user survives the filter, every role it
      references exists and its create call is accepted: the import issues
      that one call and its result is decided by the re-read. */
  lemma OneUserRun(t: Target, cs: seq<Record>, u: Record)
    requires AreCandidates(cs) && ReadsAccepted(t)
    requires FilteredUsers(t, cs) == [u]
    requires forall r :: r in Referenced(FilteredRoles(t, cs)) ==> r in t.roleNames
    requires Accepted(t.createReplies(0))
    ensures "userId" in u && u["userId"] in FilteredRoles(t, cs).entries
    ensures Reconcile(t, cs).1 == [RequestFor(u, FilteredRoles(t, cs).entries)]
    ensures Reconcile(t, cs).0.removed == Removals(WithoutRoles(cs), t.existingIds)
    ensures Accepted(t.refreshReply) && u["userId"] in t.refreshedIds ==>
      Reconcile(t, cs).0.result == Some(true) && Reconcile(t, cs).0.report == AllCreated
    ensures Accepted(t.refreshReply) && u["userId"] !in t.refreshedIds ==>
      Reconcile(t, cs).0.result == Some(false) && Reconcile(t, cs).0.report == NotCreated(u["userId"])
    ensures t.refreshReply.status == 200 && !Accepted(t.refreshReply) ==>
      Reconcile(t, cs).0.result == Some(false) && Reconcile(t, cs).0.report == RefreshRejected
    ensures t.refreshReply.status != 200 ==>
      Reconcile(t, cs).0.result == None && Reconcile(t, cs).0.report == RefreshRejected
  {
    var table := FilteredRoles(t, cs);
    assert FirstAbsent(Referenced(table), t.roleNames) == None;
    var run := CreateRun([u], table.entries, t.createReplies);
    assert FirstRejected(t.createReplies, 1) == 1;
    assert run.0;
    assert run.1 == [RequestFor(u, table.entries)];
    assert Ids([u]) == [u["userId"]];
  }

  /** A lone candidate that is kept, whose single role exists on the target
      and whose create call is accepted: one call with its own role list, no
      removal report, and a result decided by the re-read. */
  lemma SingleCandidateRun(t: Target, c: Record)
    requires IsCandidate(c) && ReadsAccepted(t) && Kept(c, t.existingIds)
    requires |c["roles"].items| == 1 && c["roles"].items[0] in t.roleNames
    requires Accepted(t.createReplies(0))
    ensures Reconcile(t, [c]).1 == [CreateRequest(c["roles"].items, c - {"roles"})]
    ensures Reconcile(t, [c]).0.removed == []
    ensures Accepted(t.refreshReply) && c["userId"] in t.refreshedIds ==>
      Reconcile(t, [c]).0.result == Some(true) && Reconcile(t, [c]).0.report == AllCreated
    ensures Accepted(t.refreshReply) && c["userId"] !in t.refreshedIds ==>
      Reconcile(t, [c]).0.result == Some(false) && Reconcile(t, [c]).0.report == NotCreated(c["userId"])
    ensures t.refreshReply.status == 200 && !Accepted(t.refreshReply) ==>
      Reconcile(t, [c]).0.result == Some(false) && Reconcile(t, [c]).0.report == RefreshRejected
    ensures t.refreshReply.status != 200 ==>
      Reconcile(t, [c]).0.result == None && Reconcile(t, [c]).0.report == RefreshRejected
  {
    var u := c - {"roles"};
    OneUnfolds(c, t.existingIds);
    assert Kept(u, t.existingIds);
    assert FilteredUsers(t, [c]) == [u];
    SingleFilteredTable(u, NewRoles([c]));
    OneUserRun(t, [c], u);
  }

  /** Filtering two candidates when only the second is kept. */
  lemma SecondKeptFilter(a: Record, b: Record, existing: seq<Value>)
    requires IsCandidate(a) && IsCandidate(b)
    requires !Kept(a, existing) && Kept(b, existing)
    ensures Filter(WithoutRoles([a, b]), existing) == [b - {"roles"}]
    ensures Removals(WithoutRoles([a, b]), existing) == Removals([a - {"roles"}], existing)
    ensures b["userId"] in NewRoles([a, b]) && NewRoles([a, b])[b["userId"]] == b["roles"].items
  {
    PairUnfolds(a, b, existing);
    OneUnfolds(a, existing);
    OneUnfolds(b, existing);
  }

  /** Filtering two candidates when only the first is kept. */
  lemma FirstKeptFilter(a: Record, b: Record, existing: seq<Value>)
    requires IsCandidate(a) && IsCandidate(b)
    requires a["userId"] == b["userId"]
    requires Kept(a, existing) && !Kept(b, existing)
    ensures Filter(WithoutRoles([a, b]), existing) == [a - {"roles"}]
    ensures Removals(WithoutRoles([a, b]), existing) == Removals([b - {"roles"}], existing)
    ensures a["userId"] in NewRoles([a, b]) && NewRoles([a, b])[a["userId"]] == b["roles"].items
  {
    PairUnfolds(a, b, existing);
    OneUnfolds(a, existing);
    OneUnfolds(b, existing);
  }

  /** Two candidates of which only the second is kept; the role list the map
      holds for it is a single existing role and its create call is accepted.
      The import makes that one call and the re-read decides. */
  lemma SecondKeptRun(t: Target, a: Record, b: Record)
    requires IsCandidate(a) && IsCandidate(b) && ReadsAccepted(t)
    requires !Kept(a, t.existingIds) && Kept(b, t.existingIds)
    requires |b["roles"].items| == 1 && b["roles"].items[0] in t.roleNames
    requires Accepted(t.createReplies(0))
    ensures Reconcile(t, [a, b]).1 == [CreateRequest(b["roles"].items, b - {"roles"})]
    ensures Reconcile(t, [a, b]).0.removed == Removals([a - {"roles"}], t.existingIds)
    ensures Accepted(t.refreshReply) && b["userId"] in t.refreshedIds ==>
      Reconcile(t, [a, b]).0.result == Some(true) && Reconcile(t, [a, b]).0.report == AllCreated
  {
    var u := b - {"roles"};
    SecondKeptFilter(a, b, t.existingIds);
    assert FilteredUsers(t, [a, b]) == [u];
    SingleFilteredTable(u, NewRoles([a, b]));
    OneUserRun(t, [a, b], u);
  }

  /** Two candidates with the same `userId` of which only the first is kept;
      the map holds the second one's roles, a single existing role, and the
      create call is accepted. The import makes one call with those roles. */
  lemma FirstKeptRun(t: Target, a: Record, b: Record)
    requires IsCandidate(a) && IsCandidate(b) && ReadsAccepted(t)
    requires a["userId"] == b["userId"]
    requires Kept(a, t.existingIds) && !Kept(b, t.existingIds)
    requires |b["roles"].items| == 1 && b["roles"].items[0] in t.roleNames
    requires Accepted(t.createReplies(0))
    ensures Reconcile(t, [a, b]).1 == [CreateRequest(b["roles"].items, a - {"roles"})]
    ensures Reconcile(t, [a, b]).0.removed == Removals([b - {"roles"}], t.existingIds)
    ensures Accepted(t.refreshReply) && a["userId"] in t.refreshedIds ==>
      Reconcile(t, [a, b]).0.result == Some(true) && Reconcile(t, [a, b]).0.report == AllCreated
  {
    var u := a - {"roles"};
    FirstKeptFilter(a, b, t.existingIds);
    assert FilteredUsers(t, [a, b]) == [u];
    SingleFilteredTable(u, NewRoles([a, b]));
    OneUserRun(t, [a, b], u);
  }

  /** `alice` already exists and is skipped; `bob` is created with its role and
      found on the re-read, so the import succeeds. */
  lemma ExistingUserSkippedNewUserCreated()
    ensures
      var alice := User("alice", "SSO", ["net-admin"]);
      var bob := User("bob", "SSO", ["net-admin"]);
      var t := Healthy([Str("alice")], ["net-admin"], [Str("alice"), Str("bob")]);
      Reconcile(t, [alice, bob]) ==
        (Outcome(Some(true), AllCreated, [AlreadyExists(Str("alice"))]),
         [CreateRequest(["net-admin"], bob - {"roles"})])
  {
    var alice := User("alice", "SSO", ["net-admin"]);
    var bob := User("bob", "SSO", ["net-admin"]);
    var t := Healthy([Str("alice")], ["net-admin"], [Str("alice"), Str("bob")]);
    OneUnfolds(alice, t.existingIds);
    assert !Contains(Ok.text, ErrorMarker);
    SecondKeptRun(t, alice, bob);
  }

  /** A locally-authenticated candidate is dropped, leaving nothing to create. */
  lemma NonSsoUserLeavesNothingToCreate()
    ensures
      var carol := User("carol", "local", ["net-admin"]);
      var t := Healthy([], ["net-admin"], []);
      Reconcile(t, [carol]) == (Outcome(Some(false), NothingToCreate, [NotSso(Str("carol"))]), [])
  {
    var carol := User("carol", "local", ["net-admin"]);
    var t := Healthy([], ["net-admin"], []);
    OneUnfolds(carol, t.existingIds);
    NothingToCreateAbortsImport(t, [carol]);
  }

  /** A role the target does not define aborts the import before any call. */
  lemma UnknownRoleAbortsImport()
    ensures
      var dave := User("dave", "SSO", ["super-admin"]);
      var t := Healthy([], ["net-admin"], []);
      Reconcile(t, [dave]) == (Outcome(Some(false), MissingRole("super-admin"), []), [])
  {
    var dave := User("dave", "SSO", ["super-admin"]);
    var t := Healthy([], ["net-admin"], []);
    var u := dave - {"roles"};
    OneUnfolds(dave, t.existingIds);
    assert FilteredUsers(t, [dave]) == [u];
    SingleFilteredTable(u, NewRoles([dave]));
    assert FirstAbsent(["super-admin"], t.roleNames) == Some("super-admin");
  }

  /** Every create call is accepted, but the re-read does not list `erin`:
      the import fails and names that user. */
  lemma AcceptedCreateMissingFromRefreshFails()
    ensures
      var erin := User("erin", "SSO", ["net-admin"]);
      var t := Healthy([], ["net-admin"], [Str("frank")]);
      Reconcile(t, [erin]) ==
        (Outcome(Some(false), NotCreated(Str("erin")), []), [CreateRequest(["net-admin"], erin - {"roles"})])
  {
    var erin := User("erin", "SSO", ["net-admin"]);
    var t := Healthy([], ["net-admin"], [Str("frank")]);
    assert !Contains(Ok.text, ErrorMarker);
    SingleCandidateRun(t, erin);
  }

  /** Two candidates share a `userId`: the role map keeps the later one's
      roles, so the kept SSO candidate is created with the roles of the
      dropped non-SSO one. */
  lemma DuplicateUserIdTakesLastRoles()
    ensures
      var first := User("gus", "SSO", ["net-admin"]);
      var second := User("gus", "local", ["read-only"]);
      var t := Healthy([], ["net-admin", "read-only"], [Str("gus")]);
      Reconcile(t, [first, second]) ==
        (Outcome(Some(true), AllCreated, [NotSso(Str("gus"))]),
         [CreateRequest(["read-only"], first - {"roles"})])
  {
    var first := User("gus", "SSO", ["net-admin"]);
    var second := User("gus", "local", ["read-only"]);
    var t := Healthy([], ["net-admin", "read-only"], [Str("gus")]);
    OneUnfolds(second, t.existingIds);
    assert !Contains(Ok.text, ErrorMarker);
    FirstKeptRun(t, first, second);
  }

  /** A re-read answered with status 200 but an embedded `errorCode` makes
      the import return `False`. */
  lemma RefreshWithErrorMarkerFails()
    ensures
      var erin := User("erin", "SSO", ["net-admin"]);
      var t := Healthy([], ["net-admin"], [Str("erin")]).(refreshReply := Response(200, "errorCode"));
      Reconcile(t, [erin]).0 == Outcome(Some(false), RefreshRejected, [])
  {
    var erin := User("erin", "SSO", ["net-admin"]);
    var t := Healthy([], ["net-admin"], [Str("erin")]).(refreshReply := Response(200, "errorCode"));
    assert !Contains(Ok.text, ErrorMarker);
    assert Contains(t.refreshReply.text, ErrorMarker);
    SingleCandidateRun(t, erin);
  }

  /** A re-read answered with a status other than 200 makes the import return
      `None`, not `False`. */
  lemma RefreshWithBadStatusReturnsNone()
    ensures
      var erin := User("erin", "SSO", ["net-admin"]);
      var t := Healthy([], ["net-admin"], [Str("erin")]).(refreshReply := Response(500, ""));
      Reconcile(t, [erin]).0 == Outcome(None, RefreshRejected, [])
  {
    var erin := User("erin", "SSO", ["net-admin"]);
    var t := Healthy([], ["net-admin"], [Str("erin")]).(refreshReply := Response(500, ""));
    assert !Contains(Ok.text, ErrorMarker);
    SingleCandidateRun(t, erin);
  }
}
