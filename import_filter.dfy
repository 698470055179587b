/** The data shaping the import does before any create call: split each
    candidate's role list out of its record, drop candidates that already
    exist on the target or are not single-sign-on users, and collect the
    de-duplicated list of roles the remaining candidates reference. */
module ImportFilter {
  import opened Lists
  import opened Values

  const RolesField: string := "roles"
  const SsoType: Value := Str("SSO")

  /** A candidate row as the import receives it: it has a `userId` and a
      decoded `roles` list of role names. */
  predicate IsCandidate(c: Record) {
    "userId" in c && RolesField in c && c[RolesField].StrList?
  }

  predicate AreCandidates(cs: seq<Record>) {
    forall i :: 0 <= i < |cs| ==> IsCandidate(cs[i])
  }

  predicate HaveIds(us: seq<Record>) {
    forall i :: 0 <= i < |us| ==> "userId" in us[i]
  }

  function Ids(us: seq<Record>): seq<Value>
    requires HaveIds(us)
  {
    seq(|us|, i requires 0 <= i < |us| => us[i]["userId"])
  }

  predicate DistinctIds(cs: seq<Record>)
    requires HaveIds(cs)
  {
    Distinct(Ids(cs))
  }

  /** Every record after `user.pop('roles')`. */
  function WithoutRoles(cs: seq<Record>): seq<Record> {
    seq(|cs|, i requires 0 <= i < |cs| => cs[i] - {RolesField})
  }

  /** `new_roles`: each candidate's role list under its `userId`; a later
      candidate with the same `userId` overwrites an earlier one. */
  function NewRoles(cs: seq<Record>): map<Value, seq<string>>
    requires AreCandidates(cs)
  {
    if cs == [] then map[]
    else
      var last := cs[|cs| - 1];
      NewRoles(cs[..|cs| - 1])[last["userId"] := last[RolesField].items]
  }

  /** The role split loop: records every candidate's roles by `userId` and
      removes the `roles` key from the caller's records in place. */
  method SplitRoles(users: array<Record>) returns (newRoles: map<Value, seq<string>>)
    requires AreCandidates(users[..])
    modifies users
    ensures newRoles == NewRoles(old(users[..]))
    ensures users[..] == WithoutRoles(old(users[..]))
  {
    ghost var original := users[..];
    newRoles := map[];
    for i := 0 to users.Length
      invariant users[i..] == original[i..]
      invariant users[..i] == WithoutRoles(original[..i])
      invariant newRoles == NewRoles(original[..i])
    {
      var user := users[i];
      assert original[..i + 1][..i] == original[..i];
      newRoles := newRoles[user["userId"] := user[RolesField].items];
      users[i] := user - {RolesField};
      assert users[..i + 1] == users[..i] + [users[i]];
    }
    assert original[..users.Length] == original;
  }

  /** The role map has an entry for exactly the candidates' `userId`s. */
  lemma {:induction false} NewRolesKeys(cs: seq<Record>)
    requires AreCandidates(cs)
    ensures forall k :: k in NewRoles(cs) <==> k in Ids(cs)
  {
    if cs != [] {
      var p := cs[..|cs| - 1];
      NewRolesKeys(p);
      assert Ids(cs) == Ids(p) + [cs[|cs| - 1]["userId"]];
    }
  }

  /** A candidate's own role list is what `new_roles` holds for its `userId`
      when no later candidate reuses that `userId`. */
  lemma {:induction false} NewRolesOfLastOccurrence(cs: seq<Record>, i: nat)
    requires AreCandidates(cs) && i < |cs|
    requires forall j :: i < j < |cs| ==> cs[j]["userId"] != cs[i]["userId"]
    ensures cs[i]["userId"] in NewRoles(cs)
    ensures NewRoles(cs)[cs[i]["userId"]] == cs[i][RolesField].items
  {
    if i < |cs| - 1 {
      var p := cs[..|cs| - 1];
      NewRolesOfLastOccurrence(p, i);
    }
  }

  /** With distinct `userId`s, every candidate finds its own role list in
      `new_roles`. */
  lemma NewRolesOwnWhenDistinct(cs: seq<Record>)
    requires AreCandidates(cs) && DistinctIds(cs)
    ensures forall i :: 0 <= i < |cs| ==>
      cs[i]["userId"] in NewRoles(cs) && NewRoles(cs)[cs[i]["userId"]] == cs[i][RolesField].items
  {
    forall i | 0 <= i < |cs|
      ensures cs[i]["userId"] in NewRoles(cs) && NewRoles(cs)[cs[i]["userId"]] == cs[i][RolesField].items
    {
      forall k | i < k < |cs|
        ensures cs[k]["userId"] != cs[i]["userId"]
      {
        assert Ids(cs)[k] == cs[k]["userId"] && Ids(cs)[i] == cs[i]["userId"];
      }
      NewRolesOfLastOccurrence(cs, i);
    }
  }

  /** After the split every record still has its `userId`, and each of them
      has an entry in the role map. */
  lemma RolesKnownAfterSplit(cs: seq<Record>)
    requires AreCandidates(cs)
    ensures RolesKnown(WithoutRoles(cs), NewRoles(cs))
    ensures Ids(WithoutRoles(cs)) == Ids(cs)
  {
    NewRolesKeys(cs);
    forall i | 0 <= i < |cs|
      ensures WithoutRoles(cs)[i]["userId"] in NewRoles(cs)
    {
      assert WithoutRoles(cs)[i]["userId"] == Ids(cs)[i];
    }
  }

  /** The "already exists" test of the filter. */
  predicate AlreadyOnTarget(u: Record, existing: seq<Value>)
    requires "userId" in u
  {
    u["userId"] in existing
  }

  /** The user-type test of the filter (`user.get('userType') != 'SSO'`
      rejects a record with no `userType`). */
  predicate IsSso(u: Record) {
    "userType" in u && u["userType"] == SsoType
  }

  predicate Kept(u: Record, existing: seq<Value>)
    requires "userId" in u
  {
    !AlreadyOnTarget(u, existing) && IsSso(u)
  }

  /** `filtered_users`: the records passing both tests, in input order. */
  function Filter(us: seq<Record>, existing: seq<Value>): seq<Record>
    requires HaveIds(us)
  {
    if us == [] then []
    else
      var last := us[|us| - 1];
      Filter(us[..|us| - 1], existing) + (if Kept(last, existing) then [last] else [])
  }

  /** Why a candidate was dropped, as the import reports it. */
  datatype Removal = AlreadyExists(id: Value) | NotSso(id: Value)

  /** The removal reports, in input order; the existence test comes first, so a
      candidate failing both tests is reported as already existing. */
  function Removals(us: seq<Record>, existing: seq<Value>): seq<Removal>
    requires HaveIds(us)
  {
    if us == [] then []
    else
      var last := us[|us| - 1];
      Removals(us[..|us| - 1], existing) +
        (if AlreadyOnTarget(last, existing) then [AlreadyExists(last["userId"])]
         else if !IsSso(last) then [NotSso(last["userId"])]
         else [])
  }

  /** Filtering distributes over concatenation, so it keeps input order. */
  lemma {:induction false} FilterAppend(a: seq<Record>, b: seq<Record>, existing: seq<Value>)
    requires HaveIds(a) && HaveIds(b)
    ensures HaveIds(a + b)
    ensures Filter(a + b, existing) == Filter(a, existing) + Filter(b, existing)
    decreases |b|
  {
    if b != [] {
      var b' := b[..|b| - 1];
      assert (a + b)[..|a + b| - 1] == a + b';
      FilterAppend(a, b', existing);
    } else {
      assert a + b == a;
    }
  }

  /** A record is in the filtered list exactly when it is an input record that
      is not on the target and is a single-sign-on user. */
  lemma {:induction false} FilterMembers(us: seq<Record>, existing: seq<Value>)
    requires HaveIds(us)
    ensures forall u :: u in Filter(us, existing) <==> u in us && Kept(u, existing)
  {
    if us != [] {
      var p := us[..|us| - 1];
      FilterMembers(p, existing);
      assert us == p + [us[|us| - 1]];
    }
  }

  /** Every input record is either kept or reported removed, once. */
  lemma {:induction false} FilterPartition(us: seq<Record>, existing: seq<Value>)
    requires HaveIds(us)
    ensures |Filter(us, existing)| + |Removals(us, existing)| == |us|
  {
    if us != [] {
      FilterPartition(us[..|us| - 1], existing);
    }
  }

  /** A candidate already on the target is reported as such whatever its user
      type, and a "not SSO" report is only ever made for a candidate that is
      not on the target. */
  lemma {:induction false} RemovalReasons(us: seq<Record>, existing: seq<Value>)
    requires HaveIds(us)
    ensures forall i :: 0 <= i < |us| && AlreadyOnTarget(us[i], existing) ==>
      AlreadyExists(us[i]["userId"]) in Removals(us, existing)
    ensures forall i :: 0 <= i < |us| && !AlreadyOnTarget(us[i], existing) && !IsSso(us[i]) ==>
      NotSso(us[i]["userId"]) in Removals(us, existing)
    ensures forall r :: r in Removals(us, existing) && r.NotSso? ==> r.id !in existing
    ensures forall r :: r in Removals(us, existing) && r.AlreadyExists? ==> r.id in existing
  {
    if us != [] {
      var p := us[..|us| - 1];
      RemovalReasons(p, existing);
      forall i | 0 <= i < |p|
        ensures us[i] == p[i]
      {
      }
    }
  }

  lemma FilterRolesKnown(us: seq<Record>, roles: map<Value, seq<string>>, existing: seq<Value>)
    requires RolesKnown(us, roles)
    ensures RolesKnown(Filter(us, existing), roles)
  {
    FilterMembers(us, existing);
    var f := Filter(us, existing);
    forall i | 0 <= i < |f|
      ensures "userId" in f[i] && f[i]["userId"] in roles
    {
      assert f[i] in us;
    }
  }

  /** `filtered_roles`, an insertion-ordered dict: the keys in insertion order
      and the entries. */
  datatype RoleTable = RoleTable(order: seq<Value>, entries: map<Value, seq<string>>)

  predicate OrderCovered(t: RoleTable) {
    forall k :: k in t.order ==> k in t.entries
  }

  /** The dict assignment `t[k] = v`: a new key goes to the end, an existing
      key keeps its place. */
  function Put(t: RoleTable, k: Value, v: seq<string>): RoleTable {
    if k in t.entries then RoleTable(t.order, t.entries[k := v])
    else RoleTable(t.order + [k], t.entries[k := v])
  }

  /** `filtered_roles.values()`, in key order. */
  function TableValues(t: RoleTable): seq<seq<string>>
    requires OrderCovered(t)
  {
    seq(|t.order|, i requires 0 <= i < |t.order| => t.entries[t.order[i]])
  }

  predicate RolesKnown(us: seq<Record>, newRoles: map<Value, seq<string>>)
  {
    HaveIds(us) && forall i :: 0 <= i < |us| ==> us[i]["userId"] in newRoles
  }

  /** The table the filter loop builds: one key per distinct filtered
      `userId`, in first-occurrence order, holding that `userId`'s roles. */
  function FilteredTable(filtered: seq<Record>, newRoles: map<Value, seq<string>>): (t: RoleTable)
    requires RolesKnown(filtered, newRoles)
    ensures OrderCovered(t) && RolesKnown(filtered, t.entries)
  {
    DedupElements(Ids(filtered));
    assert forall i :: 0 <= i < |filtered| ==> filtered[i]["userId"] == Ids(filtered)[i];
    RoleTable(Dedup(Ids(filtered)), map k | k in Ids(filtered) :: newRoles[k])
  }

  /** `list_of_filtered_roles`: every role the filtered users reference,
      de-duplicated in first-occurrence order. */
  function Referenced(t: RoleTable): seq<string>
    requires OrderCovered(t)
  {
    Dedup(Flatten(TableValues(t)))
  }

  /** The filter loop: the kept records, the role table and the removal
      reports. */
  method FilterCandidates(users: seq<Record>, newRoles: map<Value, seq<string>>, existing: seq<Value>)
    returns (filtered: seq<Record>, table: RoleTable, removed: seq<Removal>)
    requires RolesKnown(users, newRoles)
    ensures filtered == Filter(users, existing)
    ensures removed == Removals(users, existing)
    ensures RolesKnown(filtered, newRoles) && table == FilteredTable(filtered, newRoles)
  {
    filtered, table, removed := [], RoleTable([], map[]), [];
    for i := 0 to |users|
      invariant filtered == Filter(users[..i], existing)
      invariant removed == Removals(users[..i], existing)
      invariant RolesKnown(filtered, newRoles) && table == FilteredTable(filtered, newRoles)
    {
      var user := users[i];
      assert users[..i + 1][..i] == users[..i];
      if user["userId"] in existing {
        removed := removed + [AlreadyExists(user["userId"])];
      } else if !("userType" in user && user["userType"] == SsoType) {
        removed := removed + [NotSso(user["userId"])];
      } else {
        FilteredTableAppend(filtered, user, newRoles);
        filtered := filtered + [user];
        table := Put(table, user["userId"], newRoles[user["userId"]]);
      }
    }
    assert users[..|users|] == users;
  }

  /** Appending a kept record to the filtered list is the dict assignment
      `filtered_roles[userId] = new_roles[userId]` on the table. */
  lemma FilteredTableAppend(filtered: seq<Record>, u: Record, newRoles: map<Value, seq<string>>)
    requires RolesKnown(filtered, newRoles) && "userId" in u && u["userId"] in newRoles
    ensures RolesKnown(filtered + [u], newRoles)
    ensures FilteredTable(filtered + [u], newRoles) ==
      Put(FilteredTable(filtered, newRoles), u["userId"], newRoles[u["userId"]])
  {
    var ids := Ids(filtered);
    var id := u["userId"];
    RolesKnownAppend(filtered, u, newRoles);
    DedupSnoc(ids, id);
    EntriesAppend(ids, id, newRoles);
  }

  /** Appending a record with a known `userId` keeps every `userId` known,
      and appends that `userId` to the list of `userId`s. */
  lemma RolesKnownAppend(filtered: seq<Record>, u: Record, newRoles: map<Value, seq<string>>)
    requires RolesKnown(filtered, newRoles) && "userId" in u && u["userId"] in newRoles
    ensures RolesKnown(filtered + [u], newRoles)
    ensures Ids(filtered + [u]) == Ids(filtered) + [u["userId"]]
  {
    forall i | 0 <= i < |filtered + [u]|
      ensures "userId" in (filtered + [u])[i] && (filtered + [u])[i]["userId"] in newRoles
    {
      if i < |filtered| {
        assert (filtered + [u])[i] == filtered[i];
      }
    }
  }

  /** The entries for one more key are the old entries updated at that key. */
  lemma EntriesAppend(ids: seq<Value>, id: Value, newRoles: map<Value, seq<string>>)
    requires forall k :: k in ids ==> k in newRoles
    requires id in newRoles
    ensures (map k | k in ids + [id] :: newRoles[k]) == (map k | k in ids :: newRoles[k])[id := newRoles[id]]
  {
    var a := map k | k in ids + [id] :: newRoles[k];
    var b := (map k | k in ids :: newRoles[k])[id := newRoles[id]];
    assert forall k :: k in ids + [id] <==> k in ids || k == id;
    assert a.Keys == b.Keys;
  }

  /** The referenced-roles step: concatenates the table's role lists in key
      order and removes duplicates. */
  method ReferencedRoles(t: RoleTable) returns (roles: seq<string>)
    requires OrderCovered(t)
    ensures roles == Referenced(t)
    ensures Distinct(roles)
    ensures forall r :: r in roles <==> exists k :: k in t.order && r in t.entries[k]
  {
    var all: seq<string> := [];
    for i := 0 to |t.order|
      invariant all == Flatten(TableValues(t)[..i])
    {
      assert TableValues(t)[..i + 1][..i] == TableValues(t)[..i];
      all := all + t.entries[t.order[i]];
    }
    assert TableValues(t)[..|t.order|] == TableValues(t);
    roles := Dedup(all);
    DedupDistinct(all);
    DedupElements(all);
    forall r
      ensures r in roles <==> exists k :: k in t.order && r in t.entries[k]
    {
      FlattenElements(TableValues(t), r);
      if exists k :: k in t.order && r in t.entries[k] {
        var k :| k in t.order && r in t.entries[k];
        var i :| 0 <= i < |t.order| && t.order[i] == k;
        assert TableValues(t)[i] == t.entries[k];
      }
    }
  }

  /** A role is referenced exactly when some filtered user's `userId` maps to
      a role list containing it. */
  lemma ReferencedIsUnion(filtered: seq<Record>, newRoles: map<Value, seq<string>>, r: string)
    requires RolesKnown(filtered, newRoles)
    ensures r in Referenced(FilteredTable(filtered, newRoles)) <==>
      exists i :: 0 <= i < |filtered| && r in newRoles[filtered[i]["userId"]]
  {
    var t := FilteredTable(filtered, newRoles);
    var ids := Ids(filtered);
    DedupElements(ids);
    DedupElements(Flatten(TableValues(t)));
    FlattenElements(TableValues(t), r);
    if r in Referenced(t) {
      var m :| 0 <= m < |TableValues(t)| && r in TableValues(t)[m];
      var k := t.order[m];
      assert k in ids;
      var i :| 0 <= i < |ids| && ids[i] == k;
      assert r in newRoles[filtered[i]["userId"]];
    }
    if exists i :: 0 <= i < |filtered| && r in newRoles[filtered[i]["userId"]] {
      var i :| 0 <= i < |filtered| && r in newRoles[filtered[i]["userId"]];
      var k := ids[i];
      assert k in t.order;
      var m :| 0 <= m < |t.order| && t.order[m] == k;
      assert TableValues(t)[m] == newRoles[k];
    }
  }
}
