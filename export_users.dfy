/** The export side (`get_user_data`): check both replies, project every
    fetched user onto a fixed allow-list of fields, then join the user's role
    list from the role map onto the projected record in place. */
module ExportUsers {
  import opened Lists
  import opened Values
  import opened Remote

  /** The eight fields an exported record may keep. */
  const ItemsToKeep: set<string> :=
    {"userId", "firstName", "lastName", "email", "contactNumber", "userType", "userStatus", "profile"}

  const RolesField: string := "roles"

  /** The membership test `userId in roles`: the record's `userId` is a text
      that is a key of the decoded role map (whose keys are texts). */
  predicate HasRoleEntry(d: Record, roles: map<string, Value>) {
    "userId" in d && d["userId"].Str? && d["userId"].s in roles
  }

  /** `out` is the exported row for the fetched record `d`: its keys are the
      allow-listed keys of `d`, plus `roles` exactly when `d`'s `userId` is a
      key of the role map; every kept field is copied unchanged and `roles`
      holds that map entry. A record without a map entry gets no `roles` key. */
  predicate ExportedFrom(d: Record, roles: map<string, Value>, out: Record) {
    out.Keys == d.Keys * ItemsToKeep + (if HasRoleEntry(d, roles) then {RolesField} else {}) &&
    (forall k :: k in out && k != RolesField ==> out[k] == d[k]) &&
    (HasRoleEntry(d, roles) ==> out[RolesField] == roles[d["userId"].s])
  }

  /** The dict comprehension keeping only the allow-listed fields. */
  function Project(d: Record): Record {
    map k | k in d && k in ItemsToKeep :: d[k]
  }

  /** The export pipeline after decoding: `None` when either reply is rejected,
      otherwise one exported row per fetched user, in the fetched order. */
  method GetUserData(info: Response, usersReply: Response, users: seq<Record>, roles: map<string, Value>)
    returns (userData: Option<seq<Record>>)
    ensures userData.None? <==> !Accepted(info) || !Accepted(usersReply)
    ensures userData.Some? ==>
      |userData.value| == |users| &&
      forall i :: 0 <= i < |users| ==> ExportedFrom(users[i], roles, userData.value[i])
  {
    if !Accepted(info) {
      return None;
    }
    if !Accepted(usersReply) {
      return None;
    }
    var rows := new Record[|users|](i requires 0 <= i < |users| => Project(users[i]));
    for i := 0 to rows.Length
      invariant forall j :: 0 <= j < i ==> ExportedFrom(users[j], roles, rows[j])
      invariant forall j :: i <= j < rows.Length ==> rows[j] == Project(users[j])
    {
      var row := rows[i];
      if "userId" in row && row["userId"].Str? && row["userId"].s in roles {
        rows[i] := row[RolesField := roles[row["userId"].s]];
      }
    }
    return Some(rows[..]);
  }

  /** `ExportedFrom` pins the row down completely: two rows exported from the
      same record and role map are equal. */
  lemma ExportedRowIsDetermined(d: Record, roles: map<string, Value>, a: Record, b: Record)
    requires ExportedFrom(d, roles, a) && ExportedFrom(d, roles, b)
    ensures a == b
  {
    assert a.Keys == b.Keys;
    forall k | k in a
      ensures a[k] == b[k]
    {
      if k == RolesField {
        assert HasRoleEntry(d, roles);
      }
    }
  }
}
