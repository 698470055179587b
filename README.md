# CloudVision user export/import, modelled in Dafny

Two scripts move user accounts between CloudVision servers.

- **Export** (`get_user_data`) reads a server's users and its user-to-role map.
  It keeps only eight allow-listed fields of each user and joins the user's
  role list onto the record.
- **Import** (`post_user_data`) takes a list of candidate users. It:
  - checks the target server;
  - splits each candidate's `roles` out of its record;
  - drops candidates that already exist on the target or are not `SSO` users;
  - refuses the whole import when a referenced role is missing on the target,
    or when nothing is left to create;
  - creates the users one call at a time, stopping at the first rejected reply;
  - re-reads the target's users and fails unless every intended `userId` is
    listed.

Every remote reply passes the same acceptance rule: status 200, and a body
that does not contain the text `errorCode`.

Modules:

- `Lists` (`lists.dfy`): the list operations both scripts use.
  - `Option`.
  - Order-preserving de-duplication, i.e. `list(dict.fromkeys(xs))`.
  - Flattening by repeated `extend`.
  - The early-exit "first element missing from another list" loop.
- `Values` (`values.dfy`): decoded JSON/CSV values, and records as maps from
  field name to value.
- `Remote` (`remote.dfy`): a reply as status plus text, the substring test and
  the acceptance rule.
- `ExportUsers` (`export_users.dfy`): `get_user_data`.
- `ImportFilter` (`import_filter.dfy`): the data shaping of `post_user_data`.
  - The role split over the caller's records, which are updated in place.
  - The filter.
  - The insertion-ordered `filtered_roles` table.
  - The referenced-role list.
- `ImportUsers` (`import_users.dfy`): the create loop and the whole
  reconciliation.
  - `Reconcile` is a pure specification.
  - `PostUserData` is the imperative procedure, proved equal to `Reconcile`.
- `ImportProperties` (`import_properties.dfy`): what an import guarantees, for
  all inputs.
- `ImportScenarios` (`import_scenarios.dfy`): concrete runs of the import on
  small targets.

The remote server is a value of type `ImportUsers.Target`. It holds:

- the replies the server would give;
- the decoded `userId`s and role names of its listings;
- a function from call number to the reply for each create call.

The import's result keeps Python's three values: `True`, `False` and `None`.
These are `Some(true)`, `Some(false)` and `None`. `None` comes back when the
final re-read has a status other than 200. The outcome also carries:

- the last diagnostic printed (`Report`);
- the "removed from the import list" messages, in order (`Removal`).

## Where the model follows the code rather than the written design

- **No role entry on export.** The design says a user with no role-map entry
  is exported with an empty role list. The code (`export_users.py:39-42`)
  adds the `roles` key only when the map has an entry. `ExportUsers.ExportedFrom`
  follows the code: such a record has no `roles` key.
- **Re-read status on import.** The design lists a failed post-creation read
  as an ordinary failure. The code returns `None` for a non-200 status
  (`import_users.py:123-125`), and `False` for a 200 body containing
  `errorCode`. The model keeps the difference.
- **Duplicate `userId`s among candidates.** `new_roles` is a dict, so a later
  candidate overwrites an earlier candidate's roles (`import_users.py:23`).
  Every create call for that `userId` then carries the last candidate's roles.
  The model does this too. Lemmas that promise a candidate's *own* roles
  require distinct `userId`s.

## Model

| member | source | states |
|---|---|---|
| Remote.ContainsIffOccurs | import_users.py:13 | Python's `pat in text` holds exactly when some position of `text` starts an occurrence of `pat` |
| Remote.AcceptedIff | import_users.py:12-18 | a reply is trusted iff its status is 200 and no position of its body starts `errorCode`; a 200 reply carrying the marker is rejected |
| Lists.DedupElements | import_users.py:74 | de-duplication keeps exactly the elements of its input |
| Lists.DedupDistinct | import_users.py:74 | the de-duplicated list has no repeated element |
| Lists.DedupFirstOccurrenceOrder | import_users.py:74 | de-duplication lists elements in the order of their first occurrence in the input |
| Lists.DedupSnoc | import_users.py:74 | de-duplicating one more element appends it exactly when it has not been seen |
| Lists.FlattenElements | import_users.py:71-73 | an element is in the concatenation of the role lists iff it is in one of them |
| Lists.FirstAbsent | import_users.py:80-83 | the result is None iff every element is in the pool; otherwise it is an element missing from the pool, and every element before its first occurrence is in the pool |
| Lists.FindAbsent | import_users.py:129-132 | the early-exit membership loop returns the first element missing from the pool, or None |
| ExportUsers.GetUserData | export_users.py:11-43 | None iff the health reply or the users reply is rejected; otherwise one row per fetched user, in order. Each row keeps exactly the allow-listed fields, unchanged. It gets `roles` from the map iff its `userId` is a key there, and no `roles` key otherwise |
| ExportUsers.ExportedRowIsDetermined | export_users.py:38-42 | the projection-and-join relation admits exactly one row per fetched record |
| ImportFilter.SplitRoles | import_users.py:21-24 | the role map holds each `userId`'s roles, with the last candidate winning; every caller record loses its `roles` key in place |
| ImportFilter.NewRolesKeys | import_users.py:22-23 | the role map has an entry for exactly the candidates' `userId`s |
| ImportFilter.NewRolesOfLastOccurrence | import_users.py:23 | a candidate whose `userId` is not reused later finds its own role list in the map |
| ImportFilter.NewRolesOwnWhenDistinct | import_users.py:21-23 | with distinct `userId`s, every candidate finds its own role list in the role map |
| ImportFilter.RolesKnownAfterSplit | import_users.py:21-24 | after the split every record keeps its `userId`, in order, and each has a role-map entry |
| ImportFilter.FilterAppend | import_users.py:61-67 | filtering distributes over concatenation, so it keeps the input order |
| ImportFilter.FilterMembers | import_users.py:61-67 | a record is kept iff it is an input record whose `userId` is not on the target and whose `userType` is `SSO` |
| ImportFilter.FilterPartition | import_users.py:61-67 | every input record is either kept or reported removed, exactly once |
| ImportFilter.RemovalReasons | import_users.py:62-65 | an existing `userId` is reported as existing whatever its type; a "not SSO" report is only made for a record not on the target |
| ImportFilter.FilterRolesKnown | import_users.py:68 | every kept record still has a role-map entry |
| ImportFilter.FilteredTable | import_users.py:60-68 | the role table covers its key order and holds an entry for every kept `userId` |
| ImportFilter.FilterCandidates | import_users.py:58-68 | the filter loop yields the kept records, the removal reports in input order, and the insertion-ordered role table of the kept users |
| ImportFilter.FilteredTableAppend | import_users.py:68 | appending a kept record is the dict assignment on the table: a new key goes last, and an existing key keeps its place |
| ImportFilter.RolesKnownAppend | import_users.py:67-68 | appending a record with a known `userId` keeps every kept `userId` known and extends the `userId` list by it |
| ImportFilter.EntriesAppend | import_users.py:68 | the table entries for one more key are the old entries updated at that key |
| ImportFilter.ReferencedRoles | import_users.py:71-74 | the referenced-role list has no duplicates, and a role is in it iff some table entry lists it |
| ImportFilter.ReferencedIsUnion | import_users.py:60-74 | a role is referenced iff some kept user's role-map entry contains it |
| ImportUsers.FirstRejected | import_users.py:93-110 | the number of leading accepted create replies: all before it are accepted, and the one at it is not |
| ImportUsers.CreateRun | import_users.py:93-110 | the create loop as a value. Calls go to a prefix of the kept users, in order, each with that user's roles. Every call but the last was accepted. Success holds iff every user got an accepted call |
| ImportUsers.CreateRunIsDetermined | import_users.py:93-110 | that description of a create run admits exactly one run |
| ImportUsers.CreateUsers | import_users.py:93-110 | the create loop issues exactly that run, stopping at the first rejected reply |
| ImportUsers.FilteredUsers | import_users.py:58-67 | every kept record has a role-map entry |
| ImportUsers.FilteredRoles | import_users.py:60-68 | the role table of the kept users has an entry for each of them |
| ImportUsers.PostUserData | import_users.py:6-134 | the import returns what the step-by-step specification `Reconcile` gives; once the health check passes, the caller's records have lost their `roles` key |
| ImportProperties.FilteredUsersAreNewSso | import_users.py:61-67 | every kept record has no `roles` key, a `userId` not on the target, and type `SSO` |
| ImportProperties.RequestsFollowFilteredOrder | import_users.py:93-101 | the create calls go to the first kept users, in order, each with the role list the table holds for that user |
| ImportProperties.CreatedUsersAreNewSsoUsers | import_users.py:61-67 | create calls go to a prefix of the kept list, in order; each carries a record without `roles` whose `userId` is not on the target and whose type is `SSO` |
| ImportProperties.RequestCarriesCandidateRoles | import_users.py:93-101 | with distinct `userId`s, each create call carries one candidate's own roles and that candidate's record without `roles` |
| ImportProperties.MissingRoleAbortsImport | import_users.py:79-83 | a referenced role missing on the target aborts with no create call and names a missing referenced role |
| ImportProperties.NothingToCreateAbortsImport | import_users.py:85-88 | an empty kept list ends with "nothing to create", no create call, and the removal reports |
| ImportProperties.ReferencedRolesAreCandidateRoles | import_users.py:61-74 | with distinct `userId`s, the roles checked are exactly the roles of the kept candidates, each listed once |
| ImportProperties.RolesPresentIff | import_users.py:79-83 | the role check passes exactly when every referenced role is a role name of the target |
| ImportProperties.CreateRunOkIff | import_users.py:93-110 | the create loop succeeds exactly when every reply up to the last kept user is accepted, and then it made one call per user |
| ImportProperties.RefreshCoversIff | import_users.py:127-132 | the re-read check passes exactly when every kept `userId` is in the refreshed listing |
| ImportProperties.SucceedsIff | import_users.py:6-134 | the import returns True iff all of the following hold: the three reads are accepted, every referenced role exists, something is left to create, every create reply is accepted, the re-read is accepted, and it lists every kept `userId`. Then one call was made per kept user |
| ImportProperties.NoneOnlyWhenRefreshFails | import_users.py:119-125 | None is returned iff every step up to the re-read succeeded and the re-read's status is not 200 |
| ImportProperties.CreateStopsAtFirstRejection | import_users.py:93-110 | every create reply before the last call was accepted; a rejected last reply gives False; stopping early means the last reply was rejected |
| ImportScenarios.OneUnfolds | import_users.py:21-67 | for one candidate: its split record, whether it is kept, its removal report and its role-map entry |
| ImportScenarios.PairUnfolds | import_users.py:21-67 | for two candidates: the split, filter and removal reports are those of each candidate in turn, and the second one's roles win in the map |
| ImportScenarios.SingleFilteredTable | import_users.py:68-74 | one kept user with one role gives a one-key table that references exactly that role |
| ImportScenarios.SingleAcceptedCreate | import_users.py:93-110 | one kept user and an accepted reply give one create call and success |
| ImportScenarios.OneUserRun | import_users.py:79-134 | with one kept user, all roles present and an accepted create reply, the result depends only on the re-read: True, NotCreated, False, or None |
| ImportScenarios.SingleCandidateRun | import_users.py:21-134 | a lone kept candidate with one existing role and an accepted create reply gets one call with its own roles and no removal report; the re-read decides the result |
| ImportScenarios.SecondKeptFilter | import_users.py:21-68 | of two candidates, when only the second is kept, the filter keeps it alone, the first one's report is the only report, and the map holds the second one's roles |
| ImportScenarios.FirstKeptFilter | import_users.py:21-68 | of two candidates sharing a `userId`, when only the first is kept, the filter keeps it alone and the map holds the second one's roles |
| ImportScenarios.SecondKeptRun | import_users.py:21-134 | two candidates with only the second kept: one call for it with its roles, and True when the re-read lists it |
| ImportScenarios.FirstKeptRun | import_users.py:21-134 | two candidates sharing a `userId` with only the first kept: one call for it carrying the second one's roles, and True when the re-read lists it |
| ImportScenarios.ExistingUserSkippedNewUserCreated | import_users.py:6-134 | existing `alice` is skipped as existing; `bob` is created with `net-admin` and found on the re-read, so the import returns True |
| ImportScenarios.NonSsoUserLeavesNothingToCreate | import_users.py:64-88 | a lone `local` user is removed as not SSO, and the import ends with "nothing to create" and no call |
| ImportScenarios.UnknownRoleAbortsImport | import_users.py:79-83 | a candidate with a role the target lacks aborts the import naming that role, with no call |
| ImportScenarios.AcceptedCreateMissingFromRefreshFails | import_users.py:127-132 | an accepted create for `erin` that the re-read does not list makes the import return False, naming `erin` |
| ImportScenarios.DuplicateUserIdTakesLastRoles | import_users.py:21-24 | two candidates share a `userId`; only the SSO one is created, and it carries the later candidate's roles |
| ImportScenarios.RefreshWithErrorMarkerFails | import_users.py:119-122 | a 200 re-read whose body contains `errorCode` gives False |
| ImportScenarios.RefreshWithBadStatusReturnsNone | import_users.py:123-125 | a non-200 re-read gives None |

## Left out

- HTTP: URLs, headers, tokens, timeouts and the requests library are not modelled. Each reply is a `Response` value (status and text) given as a parameter.
- JSON decoding (`response.json()[...]`) is not modelled. The model takes the decoded results as parameters: existing `userId`s, role names, the fetched users and the role map.
- The 1000-record page window is not modelled. A listing is whatever the target returns.
- The interactive confirmation prompt (`input`, `import_users.py:92`) is not modelled. It has no effect on control flow: the model always continues past it.
- Printed messages are not modelled as text. Only the final diagnostic (`Report`) and the removal messages (`Removal`) are kept, as data.
- Missing keys are not modelled as errors. A candidate without `userId` or `roles`, or a reply without its `users`/`roles`/`name` keys, raises `KeyError` in the source. Here they are preconditions (`ImportFilter.IsCandidate`) or part of the decoded parameters.
- `main` of both scripts is not modelled: argument parsing, reading the identity file, reading and writing the CSV file, and the `ast.literal_eval` of the `roles` column. So the file round-trip is not modelled either.
- Value equality is structural. Python's cross-type equalities, such as `1 == True`, are not modelled for `userId` comparisons.
- Python dicts are shared by reference, and the source updates them in place. The model holds records in arrays of map values, so aliasing between records is not modelled.
