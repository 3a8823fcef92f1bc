# ig_ldap_sso_auth: user and group reconciliation

This project models the reconciliation logic of the TYPO3 extension
`ig_ldap_sso_auth` in Dafny. The extension reads users and groups from an LDAP
directory and imports them into TYPO3's user and group tables. The Dafny model
proves properties of that logic.

It models two parts of the extension:

- `Classes/Utility/UserImportUtility.php` (the importer):
  - the choice of tables from the context (`be` or `fe`);
  - fetching one page of directory users, and asking whether more pages remain;
  - `import()`: one merged user record becomes an add or an update. Along the way it:
    - applies the restore policy;
    - keeps the extra data away from the store and puts it back afterwards;
    - rejects misregistered post-processors;
    - counts the users it added and updated.
- `mod1/index.php` (the backend module):
  - the choice of the configuration record;
  - the `{USERUID}` attribute adjustment of the search wizard;
  - the group import with its counters;
  - parent-group linking (`setParentGroup`);
  - the paged user import;
  - the row status shown for every user and group;
  - `uksort_recursive`.

Files:

- `wrappers.dfy`: `Option` and `Result`.
- `php.dfy` (module `Php`): the PHP value semantics the code relies on:
  - records as associative arrays;
  - `isset` and `empty`;
  - PHP 5 loose comparison with an integer;
  - string conversion;
  - `trim`, `explode`/`implode` and `trimExplode`;
  - `array_unique` (keeps first occurrences) and `strtolower`.
- `persistence.dfy` (module `Persistence`): a stand-in for the database, class `Store`.
  - Each table is a sequence of rows.
  - `add` hands out increasing uids.
  - `update` overwrites the row with the same uid and reports whether there was one.
  - `fetch` selects rows by DN.
  - A ghost log records every write, so callers can state exactly which writes they issue.
- `directory.dfy` (module `Directory`): a stand-in for the LDAP client, class `Ldap`.
  - A search answers from a fixed sequence of pages. A fresh search starts at the first page; a continued search takes the next one.
  - The result is partial while pages remain.
- `user_import.dfy` (module `UserImport`): the importer, class `UserImportUtility`.
  - The counters `usersAdded` and `usersUpdated` are fields that `Import` updates in place.
  - `GetUsersAdded` and `GetUsersUpdated` read them.
- `admin_module.dfy` (module `AdminModule`): the backend module's reconciliation code.
  - Class `AdminModule` holds the selected configuration.
  - Its methods are the loops of `moduleContent`, `import_groups`, `setParentGroup` and `importUsers`.
  - Each method is proved against a specification function of the state it starts from:
    - `ChooseConfiguration` against `SelectedConfiguration`;
    - `setParentGroup` against `LinkParents`, and its missing-parent branch against `CreateGroups`;
    - `import_groups` against `SelectedGroupImport` and `ImportGroupsUpTo`;
    - the user pages of `importUsers` against `ListUsers` and `ListAllPages`.
  - Each of these functions gives the exact writes, in order. The methods ensure that the store's log grew by exactly those writes, and that the store's contents are what replaying them gives (`Follows`).
  - Lemmas then state what those writes are, what the counters hold, and which status each row shows.
- `key_sort.dfy` (module `KeySort`): `uksort_recursive`, modelled on arrays of key/element entries.
  - The comparator is abstract.
  - `uksort` is an insertion sort on keys.

## Model

| member | source | states |
|---|---|---|
| UserImport.UserImportUtility.constructor | Classes/Utility/UserImportUtility.php:74-95 | the context is lower-cased; the frontend configuration is used exactly when it is `fe`; the tables are `be_users`/`be_groups` exactly when it is `be`, else `fe_users`/`fe_groups`; both counters start at 0 |
| UserImport.UserImportUtility.FetchLdapUsers | Classes/Utility/UserImportUtility.php:146-175 | without a connection, or with an empty users base DN, the result is empty and no search is made; otherwise exactly one search is made. It uses the users base DN and filter, and the mapping attributes (none under an extended mapping), is not limited to the first entry, sets no size limit, and passes the continue flag on. The result is that search's page without the `count` element |
| UserImport.UserImportUtility.HasMoreLdapUsers | Classes/Utility/UserImportUtility.php:184-193 | true exactly when a connection is given and its last search was partial |
| UserImport.Stash | Classes/Utility/UserImportUtility.php:233-243 | `__extraData` is removed and remembered exactly when it is set. The value under `__<disableField>` is removed and becomes the restore value exactly when `disableField` is non-empty and that key is set; otherwise the restore value is 0. Every other key is kept with its value, whatever `disableField` is, and an unset key is always kept |
| UserImport.ApplyRestoreBehavior | Classes/Utility/UserImportUtility.php:263-275 | the disabled column is written (with the restore value) unless the policy is `undelete` or `nothing`; the delete column is written (with 0) unless it is `enable` or `nothing`; every other column is kept |
| UserImport.RestorePolicies | Classes/Utility/UserImportUtility.php:263-275 | on a disabled and deleted record: `enable` clears only the disabled flag, `undelete` only the deleted flag, and `nothing` neither; `both`, like any other name, clears both |
| UserImport.StoreNeverSeesExtraData | Classes/Utility/UserImportUtility.php:233-280 | neither the record added nor the record updated carries `__extraData` |
| UserImport.UpdateKeepsUid | Classes/Utility/UserImportUtility.php:263-278 | the updated record keeps the uid it came with, so the update addresses the user's own row |
| UserImport.FirstInvalid | Classes/Utility/UserImportUtility.php:288-308 | none exactly when every registered class implements the interface; otherwise the name of the first class that does not |
| UserImport.RunPostProcessors | Classes/Utility/UserImportUtility.php:288-308 | the loop over the registered classes stops at, and reports, exactly the first class that does not implement the interface |
| UserImport.Finish | Classes/Utility/UserImportUtility.php:283-311 | without extra data the persisted record is returned as it is. With extra data, the result is exception 1414136057 naming the first invalid class exactly when the registry is an array holding one; otherwise it is the persisted record with its extra data restored |
| UserImport.RestoreExtraData | Classes/Utility/UserImportUtility.php:283-311 | the tail of `import()` returns exactly `Finish`'s result: the record as persisted without extra data; with it, exception 1414136057 for the first class that does not implement the interface when the registry is an array, the record with its extra data otherwise |
| UserImport.ExtraDataRoundTrip | Classes/Utility/UserImportUtility.php:233-285 | on success, the returned record's `__extraData` equals the input's |
| UserImport.ImportWritesOneRow | Classes/Utility/UserImportUtility.php:244-280 | an import issues no write when the groups resolve to null and exactly one otherwise, always to the users table; it counts an add exactly when that write is an insert, and at most one count in all |
| UserImport.ImportKeepsExtraDataOut | Classes/Utility/UserImportUtility.php:233-280 | no write an import issues carries `__extraData` |
| UserImport.AddedUserCarriesItsUid | Classes/Utility/UserImportUtility.php:248-256 | after an insert the last uid is one higher, the users table has one more row, that row carries the new uid, and so does the record returned when no hook fails |
| UserImport.UserImportUtility.Import | Classes/Utility/UserImportUtility.php:226-314 | When the groups resolve to null, the stashed record is returned with no write and no count. Without a uid, exactly one add is made: a unique username, the password, and the membership; the users table gains that row under the next uid; `usersAdded` goes up by 1 and `usersUpdated` is unchanged. With a uid, exactly one update is made with the restore policy and the membership; the users table is overwritten where the uid matches; `usersUpdated` goes up by 1 exactly when a row had that uid, and `usersAdded` is unchanged. The result is then `Finish`'s. The log, the store and the counters afterwards are exactly those of `ImportOutcome` |
| Persistence.Overwrite | mod1/index.php:749 | an update keeps the number of rows and leaves every row without the record's uid as it was; a row with that uid takes every column of the record and keeps its own other columns |
| Persistence.WithDn | mod1/index.php:855 | the rows kept are exactly those whose DN column reads as the DN |
| Persistence.ReplayAppend | mod1/index.php:744-749 | replaying two runs of writes is replaying the second from where the first left the store, and their inserts add up |
| Persistence.ReplayFrame | mod1/index.php:744-749 | writes to one table leave every other table as it was, and the last uid grows by exactly the number of inserts |
| Persistence.FollowsAppend | mod1/index.php:744-749 | a run of writes followed by another is logged and replayed as the two runs joined |
| Persistence.Store.Fetch | mod1/index.php:855 | the rows of the table whose DN column reads as the DN |
| Persistence.Store.Add | mod1/index.php:744 | the stored row is the record with a fresh uid one above the last; it is appended to its table and the add is logged |
| Persistence.Store.Update | mod1/index.php:749 | success exactly when some row of the table has the record's uid; those rows are overwritten, and the update is logged with its outcome |
| Directory.Ldap.Search | Classes/Utility/UserImportUtility.php:162-169 | a fresh search answers the first page and a continued one the next page; the cursor advances past the page answered; `count` is the number of entries; the request is logged |
| Php.IntAsStringComparesEqual | mod1/index.php:232 | a uid read from the database as its decimal string compares loosely equal to the integer it spells |
| Php.DecimalRoundTrip | mod1/index.php:232 | the decimal spelling of a number reads back as that number |
| Php.ToLower | Classes/Utility/UserImportUtility.php:82 | `strtolower` keeps the length, leaves no ASCII capital, turns each capital into the same letter in lower case, and keeps every other character |
| Php.ToLowerIdempotent | Classes/Utility/UserImportUtility.php:82 | lower-casing a lower-cased context changes nothing |
| Php.Trim | mod1/index.php:859 | the result is a slice of the input, everything cut off on either side is a trim character, and the result neither starts nor ends with one |
| Php.TrimOfTrimmed | mod1/index.php:859 | a string without leading or trailing white space is its own trim |
| Php.Explode | mod1/index.php:461 | at least one part, none containing the delimiter |
| Php.ImplodeExplode | mod1/index.php:461 | joining the parts of a split with the same delimiter gives back the string |
| Php.ExplodeImplode | mod1/index.php:859-864 | splitting a joined list whose entries contain no delimiter gives back the list |
| Php.ExplodeFirstPart | mod1/index.php:461 | the part before the first delimiter is split off first |
| Php.ExplodeWithoutDelimiter | mod1/index.php:461 | a string without the delimiter splits into itself |
| Php.TrimExplode | mod1/index.php:859 | one part per exploded part, none holding the delimiter and each its own trim; `EntriesReadBack` is its inverse on lists the module writes |
| Php.Unique | mod1/index.php:863 | `array_unique`: no duplicates, the same elements, and a duplicate-free list left as it is |
| Php.UniqueKeepsFirstOccurrenceOrder | mod1/index.php:863 | the elements kept appear in the order of their first occurrences |
| Php.UniqueAppend | mod1/index.php:862-863 | appending to a duplicate-free list and de-duplicating adds the element at the end, or leaves the list as it is if it was already there |
| AdminModule.AddedRowIsListed | mod1/index.php:775-787 | a row just added (uid at least 1) is never shown as not imported; it is shown as imported exactly when its `deleted` is not loosely 1 |
| AdminModule.ClassifyUidAsString | mod1/index.php:991-1003 | the row status is the same whether the uid reads as an integer or as its decimal string |
| AdminModule.LastMatch | mod1/index.php:229-236 | the index found is a record the request loosely matches |
| AdminModule.LastMatchIsLast | mod1/index.php:229-236 | no later record matches, and there is no match only when no record matches |
| AdminModule.LastMatchStep | mod1/index.php:229-236 | looking at one more record makes it the last match exactly when the request matches it |
| AdminModule.RequestedRecordIsSelected | mod1/index.php:225-244 | with distinct uids, requesting a record's uid selects that record |
| AdminModule.UnmatchedRequestSelectsFirst | mod1/index.php:242-244 | a request no record matches selects the first record |
| AdminModule.SelectionIsARecord | mod1/index.php:225-244 | the selection is always one of the records |
| AdminModule.AdminModule.ChooseConfiguration | mod1/index.php:200-244 | Without records the selection is left alone. Otherwise the reset-then-loop-then-fallback leaves exactly `SelectedConfiguration` selected: the only record, else the last matching one, else the first |
| AdminModule.UniqueAfterAppend | mod1/index.php:471-472 | after appending and de-duplicating, the list holds the element, has no duplicates, and holds exactly the old elements and the new one. It keeps first-occurrence order, and a duplicate-free list only gains the element at its end |
| AdminModule.WithUserUidShape | mod1/index.php:469-473 | with `{USERUID}` in the groups filter, the users' attribute list holds `uid`, has no duplicates, holds exactly the configured attributes and `uid`, and keeps first occurrences in order; without the marker the list is left alone |
| AdminModule.TableNameSplits | mod1/index.php:461 | a table name `<mode>_<kind>` splits into its mode and its kind |
| AdminModule.SelectUsersField | mod1/index.php:459-476 | selecting a users table, beyond the first entry, shows that mode's adjusted users list joined by commas |
| AdminModule.UidListSplitsBack | mod1/index.php:469-475 | with the marker, the joined users list splits back into a duplicate-free list holding `uid` |
| AdminModule.SelectUsersShowsUid | mod1/index.php:459-476 | selecting a users table, beyond the first entry, with the marker in that mode's groups filter shows a field that splits back into a duplicate-free list holding `uid` |
| AdminModule.DefaultActionShowsNoAttributes | mod1/index.php:481-498 | the default action forces the first entry and shows no attributes |
| AdminModule.NextSubGroupListShape | mod1/index.php:857-864 | the list written into an existing parent holds the child's uid and has no duplicates. It holds exactly the base list's entries and the child, and keeps first-occurrence order; a duplicate-free base list only gains the child at its end |
| AdminModule.StoredListExtended | mod1/index.php:857-864 | a parent whose stored `subgroup` is a list this module wrote is written that list with the child appended, or the same list when the child is already on it, whatever was built for earlier parents |
| AdminModule.SubGroupListCarriesOver | mod1/index.php:851-864 | a parent whose stored `subgroup` is empty receives, unchanged, the list built for the previous parent of the same child (the list is not reset to the child alone), for every previous list and stored value |
| AdminModule.UidStringIsEntry | mod1/index.php:862 | an integer uid's string contains no comma and no surrounding white space |
| AdminModule.EntriesReadBack | mod1/index.php:859-864 | a non-empty list of such entries, joined and read back with `trimExplode`, is the same list |
| AdminModule.SubGroupListReadsBack | mod1/index.php:857-865 | the list written into a parent for an integer child uid is read back by the next `trimExplode` as the same list |
| AdminModule.CountsBounded | mod1/index.php:737-753 | every group counts at most once; nothing is counted exactly when no listed group is selected |
| AdminModule.ParentWriteWidens | mod1/index.php:890-905 | a write made while linking a parent created on the way is also a write for the original child |
| AdminModule.LinkExistingStep | mod1/index.php:855-866 | for a parent DN found in the store, `setParentGroup` issues exactly one more write: an update of the first row found, with its `subgroup` set to the joined `NextSubGroupList` of the carried-over list, which it then carries on |
| AdminModule.LinkMissingStep | mod1/index.php:867-909 | for a parent DN not found, `setParentGroup` issues exactly the writes of creating the groups the secondary search finds, and the carried-over list is kept |
| AdminModule.LinkParentsWrites | mod1/index.php:850-911 | every write `setParentGroup` issues is to the group table: an update whose `subgroup` list names the child or a group created on the way, or an add without `parentGroup` whose `subgroup` is the child or a group created on the way; a cut recursion means some group was added |
| AdminModule.CreateGroupsWrites | mod1/index.php:868-907 | the same holds for the writes of creating the groups found for a missing parent |
| AdminModule.CreateOneWrites | mod1/index.php:891-906 | one group found for a missing parent is added first, without `parentGroup` and with the child as its `subgroup`, and everything after it is a write for the child or for a group created on the way |
| AdminModule.LinkParentsOutcome | mod1/index.php:850-911 | over all parents: only parent writes for the child, the last uid never goes down, and it goes up when a recursion was cut |
| AdminModule.SelectedGroupWrites | mod1/index.php:741-772 | a selected group writes first its own insert (when its uid is loosely 0) or update, without `parentGroup`, then only parent writes for the uid it is shown with; a new group is shown under the uid it was stored with |
| AdminModule.SelectedGroupShown | mod1/index.php:741-787 | a selected group counts as added exactly when it is new, and as updated only when it is not; a new one is never shown as not imported, an existing one is shown as imported |
| AdminModule.ImportGroupsUpToCounts | mod1/index.php:737-787 | one row per listed group; `groupsAdded` is exactly the number of selected new groups; `groupsUpdated` is at most the number of selected existing groups; every row shows its group as `ShownAs` requires; when nothing is selected nothing is written |
| AdminModule.AdminModule.ImportSelectedGroup | mod1/index.php:741-772 | The first write is an add of the group without `parentGroup` (when its uid is loosely 0) or an update with `parentGroup` removed and `deleted` set to 0; the update counts exactly when a row has that uid. The record shown, the counts, the log and the store afterwards are exactly `SelectedGroupImport`'s: the first write, then the linking into the parents of its entry under the uid it now has |
| AdminModule.AdminModule.ImportListedGroup | mod1/index.php:741-772 | an unselected group is shown as merged, with no write and no count, and the store untouched; a selected group's record shown, counts, log and store are exactly `SelectedGroupImport`'s |
| AdminModule.AdminModule.ImportGroupAt | mod1/index.php:737-787 | one pass of the loop: from the state the groups before it left, the log, the store, the counters and the rows become exactly `ImportGroupsUpTo`'s over one more group; an unselected group leaves the store untouched |
| AdminModule.AdminModule.ImportGroups | mod1/index.php:665-787 | the log, the store, the counters and the rows are exactly `ImportGroupsUpTo`'s over all listed groups: an unselected group writes nothing and is shown as merged, a selected one issues `SelectedGroupImport`'s writes. So one row per group; `groupsAdded` is exactly the number of selected new groups; `groupsUpdated` is at most the number of selected existing groups; with nothing selected the store is untouched |
| AdminModule.AdminModule.LinkIntoParent | mod1/index.php:857-865 | the parent is updated with its `subgroup` set to the joined `NextSubGroupList`, which names the child; the group table is overwritten where the parent's uid matches; nothing is added |
| AdminModule.AdminModule.SetParentGroup | mod1/index.php:850-911 | the log grows by exactly `LinkParents`' writes and the store is what replaying them gives: per parent DN in order, an update of an existing parent with the carried-over list extended by the child, or the creation of the groups found for a missing one. So every write is one `LinkParentsWrites` allows, and a cut recursion implies some group was created |
| AdminModule.AdminModule.CreateParents | mod1/index.php:868-907 | the log grows by exactly `CreateGroups`' writes and the store is what replaying them gives: each group found is merged, added without `parentGroup` and with the child as `subgroup`, then linked into its own parents |
| AdminModule.AdminModule.CreateParent | mod1/index.php:891-906 | one group found: exactly `CreateOne`'s writes, the add and then, when its entry lists parents and fuel remains, the linking under its new uid |
| AdminModule.NonEmptyPrefix | mod1/index.php:979-1018 | the pages up to the first empty one: a prefix of the pages, none empty, followed by an empty page or nothing |
| AdminModule.NonEmptyPrefixIsWalk | mod1/index.php:1017-1018 | a walk that stops at the first empty page, or past the last, covers exactly the non-empty prefix |
| AdminModule.NonEmptyPrefixCovers | mod1/index.php:1017-1018 | a run of non-empty pages at the front lies within the non-empty prefix |
| AdminModule.Chosen | mod1/index.php:987-989 | exactly the users whose DN is strictly in the selected list |
| AdminModule.ChosenAllSelected | mod1/index.php:987-989 | every user imported from the pages has its DN strictly in the selected list |
| AdminModule.ListUsersLength | mod1/index.php:982-1004 | listing a page gives one row per user exactly when no import raised an exception, and fewer otherwise |
| AdminModule.ListUsersShows | mod1/index.php:984-1003 | row i shows `Classify` of the record listed for user i: what its import returned when the user was chosen, the merged record otherwise |
| AdminModule.ListUsersFails | mod1/index.php:987-989 | an exception comes from the import of a chosen user, the one right after the last row, run against the store the users before it left |
| AdminModule.ListUsersWrites | mod1/index.php:987-989 | a page on which no user is chosen writes nothing, counts nothing and raises nothing |
| AdminModule.ListUsersStops | mod1/index.php:987-989 | once an import has raised an exception, listing further users changes nothing |
| AdminModule.ListAllPagesRows | mod1/index.php:979-1018 | without an exception the pages give one row per entry |
| AdminModule.ListAllPagesStops | mod1/index.php:979-1018 | once an import has raised an exception, listing further pages changes nothing |
| AdminModule.AdminModule.ListUser | mod1/index.php:984-989 | an unchosen user is shown as merged, with no write and no count; for a chosen user the record shown, the exception, the counters, the log and the store are exactly those of `import()` (`ImportOutcome` with restore behaviour "both") from the store as it is |
| AdminModule.AdminModule.ImportPage | mod1/index.php:981-1004 | the rows, the exception, the counters, the log and the store are exactly `ListUsers`' for the merged page; the users imported are exactly those whose DN is strictly selected, in order; the counters grow by at most the number of imports |
| AdminModule.AdminModule.NextPage | mod1/index.php:1017 | while the directory reports more, the next page, fetched by exactly one continued search; otherwise nothing, with no search and the cursor left alone |
| AdminModule.AdminModule.ListPages | mod1/index.php:979-1018 | the log, the store and the counters are exactly `ListAllPages`' over the pages up to the first empty one; the result is a success exactly when no import raised, with `ListAllPages`' rows, and otherwise carries the exception. On success the user count is the total size of those pages, and the users imported are exactly their selected ones |
| AdminModule.AdminModule.ImportUsers | mod1/index.php:920-1076 | a fresh importer; without a first page nothing is listed. Otherwise the log, the store, the counters reported and the rows are exactly `ListAllPages`' over the non-empty prefix of the pages, and an exception is passed on |
| KeySort.InsertAt | mod1/index.php:648 | one insertion step: the first i + 1 entries become sorted by key, and the array holds the same entries |
| KeySort.UkSort | mod1/index.php:648 | `uksort` succeeds, and leaves the array sorted by key and holding the same entries |
| KeySort.UksortRecursive | mod1/index.php:647-657 | it succeeds; the array is sorted by key at every level. Its result rearranges the original: the same entries at the top level, each nested array itself rearranged, scalars unchanged |
| KeySort.ResortNested | mod1/index.php:650-651 | a nested element keeps its key and is rearranged and sorted at every level |
| KeySort.ResortedKeepsKeys | mod1/index.php:647-657 | the recursive sort keeps the array's keys, each as often as before |
| KeySort.KeysOfRearrangement | mod1/index.php:648 | rearranging entries rearranges their keys |
| KeySort.SortedRearrangementUnique | mod1/index.php:648 | with distinct keys and a comparator that ties no two keys, there is exactly one sorted rearrangement, so the sort's result is determined |

## Left out

- I/O is not modelled:
  - connecting to and disconnecting from the directory;
  - the HTML, menus, forms and flash messages the module produces;
  - `checkLdapConnection`.
- The module's methods are modelled from the point where the connection is available.
- The database is the `Store` stand-in, because the repository functions' bodies are not part of this model.
  - `fetch` selects by DN only and ignores the `pid`.
  - `update` addresses rows by a loose comparison of uids.
- `setUsername`, `setUserGroups`, `getUserGroups`, `get_typo3_groups`, `fetchTypo3Users`, `merge` and the `Configuration` accessors are parameters: functions whose answers the model takes as given.
- The TCA column names and the `extraDataProcessing` registry are also parameters.
- `setRandomPassword` is a parameter (the password value), because its output is random.
- `trigger_error`, `makeInstance` and the effects of `processExtraData` are not modelled. Only the exception raised for a class that does not implement the interface is modelled.
- The two core files come from different versions of the extension. `mod1/index.php` constructs the importer from a configuration uid and calls `fetchLdapUsers()` and `hasMoreLdapUsers()` without a connection. `ImportUsers` passes the connection explicitly.
- The regular expression that extracts the parent attribute name is not modelled. `GroupEnv.parentField` is the attribute name it yields, or none.
- The search wizard is modelled only for its attributes field. The base DN and filter fields, and the search itself, are not modelled.
- Loose comparison follows PHP 5 for integers written in decimal. Numeric strings with a decimal point or an exponent are not modelled.
- AdminModule.AdminModule.SetParentGroup: nothing in the source bounds the recursion or detects cycles. The model takes a `fuel` depth and reports `exhausted` when it cuts a recursion, so it does not model the non-termination of a cyclic parent chain.
- AdminModule.AdminModule.CreateParents: bounded by the same `fuel` as `SetParentGroup`.
- AdminModule.AdminModule.ImportGroups: as a number, `groupsUpdated` is only bounded by the number of selected existing groups, because each update's outcome depends on the store as earlier iterations left it. Its exact value is `ImportGroupsUpTo`'s, which the method is proved against.
- AdminModule.AdminModule.CreateParents: `get_typo3_groups` and `merge` are parameters, so the model merges each group found as it comes to it rather than building the whole list of local groups first. This gives the same records, because the merge reads nothing the loop writes.
- AdminModule.AdminModule.ImportPage: the import of a chosen user is `import()` with restore behaviour `both` and no disable field, as `mod1/index.php` calls it. The listing functions `ListUsers` and `ListAllPages` take that import step as a parameter (`ImportBoth`), and their lemmas hold for any step.
- AdminModule.AdminModule.ImportUsers: an exception raised by `import()` (1414136057) leaves `importUsers` without a handler and ends the request. The model returns it as an error, together with the writes made before it.
- UserImport.UserImportUtility.Import: one password value is used for every user added in a run, where `setRandomPassword` draws a fresh one per user. The password is never read back, so nothing the model states depends on it being fresh.
- UserImport.StoreNeverSeesExtraData, UserImport.UpdateKeepsUid and UserImport.ImportKeepsExtraDataOut assume that the configured disabled and delete columns are neither `__extraData` nor `uid` (`DistinctColumns`). They also model `setUsername` and `setUserGroups` as writing only the `username` and `usergroup` columns, whose values are parameters; the repository's own bodies are not part of this model.
- AdminModule.AdminModule.ChooseConfiguration: the requested id is compared loosely with each record's uid, with the uid as an integer.
- KeySort.UkSort: PHP does not specify the order of keys the comparator ties, and this model keeps them in their original order.
  - `strnatcmp` is an abstract comparator, required to be a total preorder.
  - Integer keys are modelled as their strings, and scalar elements as strings.
- KeySort.UksortRecursive: the `break` taken when a nested sort fails never fires, because `uksort` always succeeds here.
  - A nested array is sorted as a copy that is written back into its entry, which is what the reference amounts to.
- The `count` element of a search result is not an entry of the page. `SearchResult.count` carries it.
- `getContext`, `getUserTable`, `getConfiguration`, `fetchTypo3Users`, `disableUsers` and `deleteUsers` are not part of this model.
- `GetUsersAdded` and `GetUsersUpdated` are plain reads of the counters. What the counters hold is stated by `Import`, `ImportPage`, `ListPages` and `ImportUsers`.
