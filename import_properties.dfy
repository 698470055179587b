/** What the import reconciler guarantees, stated over its specification
    `Reconcile` (which `PostUserData` is proved to compute). */
module ImportProperties {
  import opened Lists
  import opened Values
  import opened Remote
  import opened ImportFilter
  import opened ImportUsers

  /** Every filtered record has lost its `roles` key, has a `userId` that is
      not on the target, and is a single-sign-on user. */
  lemma FilteredUsersAreNewSso(t: Target, cs: seq<Record>)
    requires AreCandidates(cs)
    ensures forall j :: 0 <= j < |FilteredUsers(t, cs)| ==>
      RolesField !in FilteredUsers(t, cs)[j] && "userId" in FilteredUsers(t, cs)[j] &&
      Kept(FilteredUsers(t, cs)[j], t.existingIds)
  {
    var f := FilteredUsers(t, cs);
    var us := WithoutRoles(cs);
    FilterMembers(us, t.existingIds);
    forall j | 0 <= j < |f|
      ensures RolesField !in f[j] && Kept(f[j], t.existingIds)
    {
      assert f[j] in us;
      var i :| 0 <= i < |us| && us[i] == f[j];
    }
  }

  /** The create calls issued are the first ones of the filtered list, in
      order, each with the role list the table holds for that user. */
  lemma RequestsFollowFilteredOrder(t: Target, cs: seq<Record>)
    requires AreCandidates(cs)
    ensures var requests := Reconcile(t, cs).1;
      |requests| <= |FilteredUsers(t, cs)| &&
      forall j :: 0 <= j < |requests| ==>
        requests[j] == RequestFor(FilteredUsers(t, cs)[j], FilteredRoles(t, cs).entries)
  {
  }

  /** The create calls issued are a prefix of the filtered list, in its order;
      each carries a record with no `roles` key whose `userId` is not on the
      target and whose `userType` is `SSO`. */
  lemma CreatedUsersAreNewSsoUsers(t: Target, cs: seq<Record>)
    requires AreCandidates(cs)
    ensures var requests := Reconcile(t, cs).1;
      |requests| <= |FilteredUsers(t, cs)| &&
      forall j :: 0 <= j < |requests| ==>
        requests[j].user == FilteredUsers(t, cs)[j] &&
        RolesField !in requests[j].user &&
        "userId" in requests[j].user && requests[j].user["userId"] !in t.existingIds &&
        IsSso(requests[j].user)
  {
    RequestsFollowFilteredOrder(t, cs);
    FilteredUsersAreNewSso(t, cs);
  }

  /** When the candidates' `userId`s are distinct, every create call carries
      one candidate's own role list and that candidate's record minus `roles`. */
  lemma RequestCarriesCandidateRoles(t: Target, cs: seq<Record>, j: nat)
    requires AreCandidates(cs) && DistinctIds(cs)
    requires j < |Reconcile(t, cs).1|
    ensures exists i ::
      0 <= i < |cs| && Reconcile(t, cs).1[j] == CreateRequest(cs[i][RolesField].items, cs[i] - {RolesField})
  {
    RequestsFollowFilteredOrder(t, cs);
    var f := FilteredUsers(t, cs);
    var table := FilteredRoles(t, cs);
    var us := WithoutRoles(cs);
    FilterMembers(us, t.existingIds);
    assert f[j] in us;
    var i :| 0 <= i < |us| && us[i] == f[j];
    var id := cs[i]["userId"];
    NewRolesOwnWhenDistinct(cs);
    assert Ids(f)[j] == id;
    assert table.entries[id] == NewRoles(cs)[id];
  }

  /** A role that the filtered users reference and the target lacks aborts the
      import before any create call, reporting that role. */
  lemma MissingRoleAbortsImport(t: Target, cs: seq<Record>, role: string)
    requires AreCandidates(cs) && ReadsAccepted(t)
    requires role in Referenced(FilteredRoles(t, cs)) && role !in t.roleNames
    ensures Reconcile(t, cs).1 == []
    ensures Reconcile(t, cs).0.result == Some(false)
    ensures Reconcile(t, cs).0.report.MissingRole?
    ensures Reconcile(t, cs).0.report.role in Referenced(FilteredRoles(t, cs))
    ensures Reconcile(t, cs).0.report.role !in t.roleNames
  {
    var r := Referenced(FilteredRoles(t, cs));
    assert r[IndexOf(r, role)] !in t.roleNames;
  }

  /** The role check comes first and passes trivially on an empty filtered
      list; the import then stops with "nothing to create" and no create call. */
  lemma NothingToCreateAbortsImport(t: Target, cs: seq<Record>)
    requires AreCandidates(cs) && ReadsAccepted(t)
    requires FilteredUsers(t, cs) == []
    ensures Reconcile(t, cs) ==
      (Outcome(Some(false), NothingToCreate, Removals(WithoutRoles(cs), t.existingIds)), [])
  {
    var table := FilteredRoles(t, cs);
    assert table.order == [];
    assert TableValues(table) == [];
  }

  /** With distinct `userId`s, the roles checked against the target are exactly
      the roles of the candidates that pass the filter, each listed once. */
  lemma ReferencedRolesAreCandidateRoles(t: Target, cs: seq<Record>, role: string)
    requires AreCandidates(cs) && DistinctIds(cs)
    ensures Distinct(Referenced(FilteredRoles(t, cs)))
    ensures role in Referenced(FilteredRoles(t, cs)) <==>
      exists i :: 0 <= i < |cs| && Kept(cs[i], t.existingIds) && role in cs[i][RolesField].items
  {
    var f := FilteredUsers(t, cs);
    var us := WithoutRoles(cs);
    var newRoles := NewRoles(cs);
    DedupDistinct(Flatten(TableValues(FilteredRoles(t, cs))));
    ReferencedIsUnion(f, newRoles, role);
    FilterMembers(us, t.existingIds);
    NewRolesOwnWhenDistinct(cs);
    if role in Referenced(FilteredRoles(t, cs)) {
      var k :| 0 <= k < |f| && role in newRoles[f[k]["userId"]];
      assert f[k] in us;
      var i :| 0 <= i < |us| && us[i] == f[k];
      assert Kept(cs[i], t.existingIds) && role in cs[i][RolesField].items;
    }
    if exists i :: 0 <= i < |cs| && Kept(cs[i], t.existingIds) && role in cs[i][RolesField].items {
      var i :| 0 <= i < |cs| && Kept(cs[i], t.existingIds) && role in cs[i][RolesField].items;
      assert us[i] in f;
      var k :| 0 <= k < |f| && f[k] == us[i];
      assert role in newRoles[f[k]["userId"]];
    }
  }

  /** The role check passes exactly when every referenced role exists. */
  lemma RolesPresentIff(referenced: seq<string>, names: seq<string>)
    ensures FirstAbsent(referenced, names).None? <==> forall r :: r in referenced ==> r in names
  {
    assert forall r :: r in referenced <==> exists i :: 0 <= i < |referenced| && referenced[i] == r;
  }

  /** The create loop succeeds exactly when every reply up to the last user
      is accepted, and then it has made one call per user. */
  lemma CreateRunOkIff(filtered: seq<Record>, roles: map<Value, seq<string>>, replies: Replies)
    requires RolesKnown(filtered, roles)
    ensures CreateRun(filtered, roles, replies).0 <==>
      forall j :: 0 <= j < |filtered| ==> Accepted(replies(j))
    ensures CreateRun(filtered, roles, replies).0 ==> |CreateRun(filtered, roles, replies).1| == |filtered|
  {
  }

  /** The re-read check passes exactly when every filtered `userId` is listed. */
  lemma RefreshCoversIff(filtered: seq<Record>, refreshed: seq<Value>)
    requires HaveIds(filtered)
    ensures FirstAbsent(Ids(filtered), refreshed).None? <==>
      forall u :: u in filtered ==> u["userId"] in refreshed
  {
    var ids := Ids(filtered);
    assert forall u :: u in filtered <==> exists i :: 0 <= i < |filtered| && filtered[i] == u;
    assert forall i :: 0 <= i < |filtered| ==> ids[i] == filtered[i]["userId"];
  }

  /** The import returns `True` exactly when all three reads are accepted,
      every referenced role exists on the target, at least one user survives
      the filter, every create reply is accepted, the refreshed listing is
      accepted, and it lists every filtered `userId`; then one call was issued
      per filtered user. */
  lemma SucceedsIff(t: Target, cs: seq<Record>)
    requires AreCandidates(cs)
    ensures Reconcile(t, cs).0.result == Some(true) <==>
      ReadsAccepted(t) &&
      (forall r :: r in Referenced(FilteredRoles(t, cs)) ==> r in t.roleNames) &&
      FilteredUsers(t, cs) != [] &&
      (forall j :: 0 <= j < |FilteredUsers(t, cs)| ==> Accepted(t.createReplies(j))) &&
      Accepted(t.refreshReply) &&
      (forall u :: u in FilteredUsers(t, cs) ==> u["userId"] in t.refreshedIds)
    ensures Reconcile(t, cs).0.result == Some(true) ==>
      |Reconcile(t, cs).1| == |FilteredUsers(t, cs)|
  {
    var f := FilteredUsers(t, cs);
    var table := FilteredRoles(t, cs);
    RolesPresentIff(Referenced(table), t.roleNames);
    CreateRunOkIff(f, table.entries, t.createReplies);
    RefreshCoversIff(f, t.refreshedIds);
  }

  /** The import returns `None` (rather than `False`) exactly when it gets as
      far as the re-read of the users and that reply's status is not 200. */
  lemma NoneOnlyWhenRefreshFails(t: Target, cs: seq<Record>)
    requires AreCandidates(cs)
    ensures Reconcile(t, cs).0.result == None <==>
      ReadsAccepted(t) &&
      (forall r :: r in Referenced(FilteredRoles(t, cs)) ==> r in t.roleNames) &&
      FilteredUsers(t, cs) != [] &&
      (forall j :: 0 <= j < |FilteredUsers(t, cs)| ==> Accepted(t.createReplies(j))) &&
      t.refreshReply.status != 200
  {
  }

  /** Creation stops at the first rejected create reply: every earlier reply
      was accepted, and a rejected last reply makes the import return `False`. */
  lemma CreateStopsAtFirstRejection(t: Target, cs: seq<Record>)
    requires AreCandidates(cs)
    ensures var requests := Reconcile(t, cs).1;
      (forall j :: 0 <= j < |requests| - 1 ==> Accepted(t.createReplies(j))) &&
      (requests != [] && !Accepted(t.createReplies(|requests| - 1)) ==>
        Reconcile(t, cs).0.result == Some(false) && Reconcile(t, cs).0.report == CreateRejected) &&
      (requests != [] && |requests| < |FilteredUsers(t, cs)| ==>
        !Accepted(t.createReplies(|requests| - 1)))
  {
  }
}
