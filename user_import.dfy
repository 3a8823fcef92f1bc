/**
 * The user import step of Classes/Utility/UserImportUtility.php: the choice
 * of tables from the context, fetching a page of directory users, and
 * `import()`, which turns one merged user record into an add or an update
 * and counts what it did.
 */
module UserImport {
  import opened Wrappers
  import opened Php
  import opened Persistence
  import opened Directory

  const ExtraDataKey := "__extraData"
  const UsernameField := "username"
  const PasswordField := "password"
  const UserGroupField := "usergroup"

  /** Code of the exception thrown for a post-processor that does not implement the interface. */
  const InvalidPostProcessorCode := 1414136057

  /**
   * The `users` part of an LDAP configuration, with the configuration
   * collaborator's answers already resolved.
   */
  datatype UsersConfiguration = UsersConfiguration(
    basedn: string,
    /** the filter after `Configuration::replaceFilterMarkers` */
    filter: string,
    /** `Configuration::getLdapAttributes(mapping)` */
    mappingAttributes: seq<string>,
    /** `Configuration::hasExtendedMapping(mapping)` */
    extendedMapping: bool)

  datatype Configuration = Configuration(users: UsersConfiguration)

  /** A class registered under the `extraDataProcessing` hook. */
  datatype PostProcessor = PostProcessor(className: string, implementsInterface: bool)

  datatype ImportUsersException = ImportUsersException(code: int, className: string)

  /** The collaborators `import()` calls; their bodies are not part of this model. */
  datatype ImportEnvironment = ImportEnvironment(
    /** `Authentication::getUserGroups($ldapUser, ...)`; None stands for null (required groups missing) */
    userGroups: Record -> Option<seq<Record>>,
    /** `Typo3UserRepository::setUsername` */
    uniqueUsername: Value -> Value,
    /** the `usergroup` column `Typo3UserRepository::setUserGroups` writes */
    membership: (Record, seq<Record>) -> Value,
    /** the user table's disabled column, from the TCA */
    disabledColumn: string,
    /** the user table's delete column, from the TCA */
    deleteColumn: string,
    /** the `extraDataProcessing` registry; None when it is not an array */
    postProcessors: Option<seq<PostProcessor>>)

  /** The columns `import()` writes itself are not the stash key. */
  predicate DistinctColumns(env: ImportEnvironment) {
    && env.disabledColumn != ExtraDataKey
    && env.deleteColumn != ExtraDataKey
    && env.disabledColumn != UidField
    && env.deleteColumn != UidField
  }

  // ---------------------------------------------------------------------
  // Stashing the extra data and the saved disable value

  /** What `import()` sets aside before persisting: the remaining record, the extra data and the disable value to restore. */
  datatype Stashed = Stashed(user: Record, extraData: Option<Value>, restoreDisableValue: Value)

  /** The key under which the caller saved the disable column's value. */
  function DisableStashKey(disableField: string): string {
    "__" + disableField
  }

  /** The disable value is taken from the record (and removed from it). */
  predicate StashesDisableValue(user: Record, disableField: string) {
    && !IsEmpty(Str(disableField))
    && DisableStashKey(disableField) != ExtraDataKey
    && IsSet(user, DisableStashKey(disableField))
  }

  /** `k` is the key whose value is taken as the disable value. */
  predicate StashedKey(user: Record, disableField: string, k: string) {
    StashesDisableValue(user, disableField) && k == DisableStashKey(disableField)
  }

  /** Removes `__extraData` and `__<disableField>` when they are set, remembering their values. */
  function Stash(user: Record, disableField: string): (s: Stashed)
    ensures s.extraData == if IsSet(user, ExtraDataKey) then Some(user[ExtraDataKey]) else None
    ensures !IsSet(s.user, ExtraDataKey)
    ensures StashesDisableValue(user, disableField) ==>
              s.restoreDisableValue == user[DisableStashKey(disableField)] && DisableStashKey(disableField) !in s.user
    ensures !StashesDisableValue(user, disableField) ==> s.restoreDisableValue == Int(0)
    ensures forall k :: k in s.user ==> k in user && s.user[k] == user[k]
    ensures forall k :: k in user && k != ExtraDataKey && !StashedKey(user, disableField, k) ==> k in s.user
    ensures forall k :: k in user && !IsSet(user, k) ==> k in s.user
  {
    var withoutExtra := if IsSet(user, ExtraDataKey) then user - {ExtraDataKey} else user;
    var extraData := if IsSet(user, ExtraDataKey) then Some(user[ExtraDataKey]) else None;
    var key := DisableStashKey(disableField);
    if !IsEmpty(Str(disableField)) && IsSet(withoutExtra, key) then
      Stashed(withoutExtra - {key}, extraData, withoutExtra[key])
    else
      Stashed(withoutExtra, extraData, Int(0))
  }

  // ---------------------------------------------------------------------
  // Restore policy (update path)

  /** The policy writes the disabled column: everything but `undelete` and `nothing`. */
  predicate WritesDisabled(behavior: string) {
    behavior != "undelete" && behavior != "nothing"
  }

  /** The policy writes the delete column: everything but `enable` and `nothing`. */
  predicate WritesDeleted(behavior: string) {
    behavior != "enable" && behavior != "nothing"
  }

  /** The `switch ($restoreBehavior)` of the update path. */
  function ApplyRestoreBehavior(user: Record, behavior: string, disabledColumn: string, deleteColumn: string,
                                restoreDisableValue: Value): (r: Record)
    ensures r.Keys == user.Keys + (if WritesDisabled(behavior) then {disabledColumn} else {})
                                + (if WritesDeleted(behavior) then {deleteColumn} else {})
    ensures forall k :: k in user && k != disabledColumn && k != deleteColumn ==> r[k] == user[k]
    ensures WritesDeleted(behavior) ==> r[deleteColumn] == Int(0)
    ensures WritesDisabled(behavior) && !(WritesDeleted(behavior) && disabledColumn == deleteColumn) ==>
              r[disabledColumn] == restoreDisableValue
    ensures !WritesDisabled(behavior) && disabledColumn in user && !(WritesDeleted(behavior) && disabledColumn == deleteColumn) ==>
              r[disabledColumn] == user[disabledColumn]
    ensures !WritesDeleted(behavior) && deleteColumn in user && !(WritesDisabled(behavior) && disabledColumn == deleteColumn) ==>
              r[deleteColumn] == user[deleteColumn]
  {
    if behavior == "enable" then
      user[disabledColumn := restoreDisableValue]
    else if behavior == "undelete" then
      user[deleteColumn := Int(0)]
    else if behavior == "nothing" then
      user
    else
      user[disabledColumn := restoreDisableValue][deleteColumn := Int(0)]
  }

  /**
   * The four named policies on a record that is both disabled and deleted
   * (distinct columns, nothing saved for the disable column): `enable`
   * clears only the disabled flag, `undelete` only the deleted flag,
   * `nothing` neither, and `both` (the default, like any other name) both.
   */
  lemma RestorePolicies(user: Record, disabledColumn: string, deleteColumn: string, other: string)
    requires disabledColumn != deleteColumn
    requires disabledColumn in user && deleteColumn in user
    requires user[disabledColumn] == Int(1) && user[deleteColumn] == Int(1)
    requires other != "enable" && other != "undelete" && other != "nothing"
    ensures var r := ApplyRestoreBehavior(user, "enable", disabledColumn, deleteColumn, Int(0));
            r[disabledColumn] == Int(0) && r[deleteColumn] == Int(1)
    ensures var r := ApplyRestoreBehavior(user, "undelete", disabledColumn, deleteColumn, Int(0));
            r[disabledColumn] == Int(1) && r[deleteColumn] == Int(0)
    ensures ApplyRestoreBehavior(user, "nothing", disabledColumn, deleteColumn, Int(0)) == user
    ensures var r := ApplyRestoreBehavior(user, "both", disabledColumn, deleteColumn, Int(0));
            r[disabledColumn] == Int(0) && r[deleteColumn] == Int(0)
    ensures ApplyRestoreBehavior(user, other, disabledColumn, deleteColumn, Int(0))
         == ApplyRestoreBehavior(user, "both", disabledColumn, deleteColumn, Int(0))
  {
  }

  // ---------------------------------------------------------------------
  // The records handed to the store

  /** The create path: unique username, random password, group membership. */
  function NewUserRecord(user: Record, groups: seq<Record>, env: ImportEnvironment, password: Value): Record {
    var named := user[UsernameField := env.uniqueUsername(Get(user, UsernameField))][PasswordField := password];
    named[UserGroupField := env.membership(named, groups)]
  }

  /** The update path: restore policy, then group membership. */
  function UpdatedUserRecord(user: Record, groups: seq<Record>, behavior: string, restoreDisableValue: Value,
                             env: ImportEnvironment): Record {
    var restored := ApplyRestoreBehavior(user, behavior, env.disabledColumn, env.deleteColumn, restoreDisableValue);
    restored[UserGroupField := env.membership(restored, groups)]
  }

  /** Neither path hands the extra data to the store. */
  lemma StoreNeverSeesExtraData(user: Record, disableField: string, groups: seq<Record>, behavior: string,
                                env: ImportEnvironment, password: Value)
    requires DistinctColumns(env)
    ensures var s := Stash(user, disableField);
            && !IsSet(NewUserRecord(s.user, groups, env, password), ExtraDataKey)
            && !IsSet(UpdatedUserRecord(s.user, groups, behavior, s.restoreDisableValue, env), ExtraDataKey)
  {
    var s := Stash(user, disableField);
    assert !IsSet(s.user, ExtraDataKey);
    var restored := ApplyRestoreBehavior(s.user, behavior, env.disabledColumn, env.deleteColumn, s.restoreDisableValue);
    assert ExtraDataKey in restored ==> ExtraDataKey in s.user && restored[ExtraDataKey] == s.user[ExtraDataKey];
  }

  /** The update path addresses the row the record came from: its uid is untouched. */
  lemma UpdateKeepsUid(user: Record, groups: seq<Record>, behavior: string, restoreDisableValue: Value,
                       env: ImportEnvironment)
    requires DistinctColumns(env)
    ensures Get(UpdatedUserRecord(user, groups, behavior, restoreDisableValue, env), UidField) == Get(user, UidField)
  {
    var restored := ApplyRestoreBehavior(user, behavior, env.disabledColumn, env.deleteColumn, restoreDisableValue);
    assert UidField in restored <==> UidField in user;
  }

  // ---------------------------------------------------------------------
  // Post-processing of the extra data

  /** The first registered class that does not implement the interface, if any. */
  function FirstInvalid(processors: seq<PostProcessor>): (r: Option<string>)
    ensures r.None? <==> forall i :: 0 <= i < |processors| ==> processors[i].implementsInterface
    ensures r.Some? ==> exists i :: 0 <= i < |processors| && !processors[i].implementsInterface
                                     && processors[i].className == r.value
                                     && forall j :: 0 <= j < i ==> processors[j].implementsInterface
  {
    if processors == [] then None
    else if !processors[0].implementsInterface then Some(processors[0].className)
    else
      var r := FirstInvalid(processors[1..]);
      if r.Some? then
        var i :| 1 <= i < |processors| && !processors[i].implementsInterface && processors[i].className == r.value
                 && forall j :: 1 <= j < i ==> processors[j].implementsInterface;
        r
      else
        r
  }

  /**
   * The `foreach` over the registered post-processors: every class is
   * instantiated in turn, and the first one that does not implement the
   * interface stops the loop with an exception.
   */
  method RunPostProcessors(processors: seq<PostProcessor>) returns (invalid: Option<string>)
    ensures invalid == FirstInvalid(processors)
  {
    var k := 0;
    while k < |processors|
      invariant 0 <= k <= |processors|
      invariant forall j :: 0 <= j < k ==> processors[j].implementsInterface
      invariant FirstInvalid(processors) == FirstInvalid(processors[k..])
    {
      if !processors[k].implementsInterface {
        return Some(processors[k].className);
      }
      assert processors[k..][1..] == processors[k + 1..];
      k := k + 1;
    }
    return None;
  }

  /** Restoring the extra data and running the hooks, once the record is persisted. */
  function Finish(persisted: Record, extraData: Option<Value>, processors: Option<seq<PostProcessor>>)
    : (r: Result<Record, ImportUsersException>)
    ensures extraData.None? ==> r == Ok(persisted)
    ensures extraData.Some? && r.Ok? ==> r.value == persisted[ExtraDataKey := extraData.value]
    ensures r.Err? <==> extraData.Some? && processors.Some? && FirstInvalid(processors.value).Some?
    ensures r.Err? ==> r.error == ImportUsersException(InvalidPostProcessorCode, FirstInvalid(processors.value).value)
  {
    match extraData
    case None => Ok(persisted)
    case Some(e) =>
      if processors.Some? && FirstInvalid(processors.value).Some? then
        Err(ImportUsersException(InvalidPostProcessorCode, FirstInvalid(processors.value).value))
      else
        Ok(persisted[ExtraDataKey := e])
  }

  /**
   * The tail of `import()`: the extra data is put back on the persisted
   * record and, when the registry is an array, every registered class is
   * checked before the record is returned.
   */
  method RestoreExtraData(persisted: Record, extraData: Option<Value>, processors: Option<seq<PostProcessor>>)
    returns (result: Result<Record, ImportUsersException>)
    ensures result == Finish(persisted, extraData, processors)
  {
    var u := persisted;
    if extraData.Some? {
      u := u[ExtraDataKey := extraData.value];
      if processors.Some? {
        var invalid := RunPostProcessors(processors.value);
        if invalid.Some? {
          return Err(ImportUsersException(InvalidPostProcessorCode, invalid.value));
        }
      }
    }
    return Ok(u);
  }

  /** On success, the record the caller gets back carries its extra data unchanged. */
  lemma ExtraDataRoundTrip(user: Record, disableField: string, persisted: Record, processors: Option<seq<PostProcessor>>)
    requires IsSet(user, ExtraDataKey)
    requires Finish(persisted, Stash(user, disableField).extraData, processors).Ok?
    ensures Finish(persisted, Stash(user, disableField).extraData, processors).value[ExtraDataKey] == user[ExtraDataKey]
  {
  }

  // ---------------------------------------------------------------------
  // One import, as a function of the store it starts from

  /** What one `import()` returns, the writes it issues, and what it adds to the two counters. */
  datatype ImportStep = ImportStep(result: Result<Record, ImportUsersException>, writes: seq<Call>, added: nat, updated: nat)

  /** `import()` run against a store in state `st`. */
  function ImportOutcome(userTable: string, user: Record, ldapUser: Record, behavior: string, disableField: string,
                         env: ImportEnvironment, password: Value, st: StoreState): ImportStep {
    var s := Stash(user, disableField);
    match env.userGroups(ldapUser)
    case None => ImportStep(Ok(s.user), [], 0, 0)
    case Some(groups) =>
      if IsEmpty(Get(s.user, UidField)) then
        var row := NewUserRecord(s.user, groups, env, password);
        ImportStep(Finish(row[UidField := Int(st.lastUid + 1)], s.extraData, env.postProcessors),
                   [Added(userTable, row)], 1, 0)
      else
        var row := UpdatedUserRecord(s.user, groups, behavior, s.restoreDisableValue, env);
        var success := Addresses(RowsOf(st, userTable), row);
        ImportStep(Finish(row, s.extraData, env.postProcessors),
                   [Updated(userTable, row, success)], 0, if success then 1 else 0)
  }

  /**
   * One import issues at most one write, to the users table, and none when
   * the user's groups resolve to null; it counts at most one user, an added
   * one exactly when it inserts.
   */
  lemma ImportWritesOneRow(userTable: string, user: Record, ldapUser: Record, behavior: string, disableField: string,
                           env: ImportEnvironment, password: Value, st: StoreState)
    ensures var o := ImportOutcome(userTable, user, ldapUser, behavior, disableField, env, password, st);
            && AllOn(o.writes, userTable)
            && |o.writes| == (if env.userGroups(ldapUser).None? then 0 else 1)
            && o.added == AddCount(o.writes)
            && o.added + o.updated <= |o.writes|
  {
    var o := ImportOutcome(userTable, user, ldapUser, behavior, disableField, env, password, st);
    if o.writes != [] {
      assert o.writes == [] + [o.writes[0]];
      ReplayStep(st, [], o.writes[0]);
    }
  }

  /** The row an import writes never carries the extra data. */
  lemma ImportKeepsExtraDataOut(userTable: string, user: Record, ldapUser: Record, behavior: string,
                                disableField: string, env: ImportEnvironment, password: Value, st: StoreState)
    requires DistinctColumns(env)
    ensures var o := ImportOutcome(userTable, user, ldapUser, behavior, disableField, env, password, st);
            forall c :: c in o.writes ==> !IsSet(c.row, ExtraDataKey)
  {
    if env.userGroups(ldapUser).Some? {
      StoreNeverSeesExtraData(user, disableField, env.userGroups(ldapUser).value, behavior, env, password);
    }
  }

  /**
   * A user the import adds is returned, when the hooks let it through,
   * with the uid it was stored under; that row is now the last row of the
   * users table.
   */
  lemma AddedUserCarriesItsUid(userTable: string, user: Record, ldapUser: Record, behavior: string,
                               disableField: string, env: ImportEnvironment, password: Value, st: StoreState)
    ensures var o := ImportOutcome(userTable, user, ldapUser, behavior, disableField, env, password, st);
            var after := Replay(st, o.writes);
            o.added == 1 ==>
              && after.lastUid == st.lastUid + 1
              && |RowsOf(after, userTable)| == |RowsOf(st, userTable)| + 1
              && Get(RowsOf(after, userTable)[|RowsOf(st, userTable)|], UidField) == Int(st.lastUid + 1)
              && (o.result.Ok? ==> Get(o.result.value, UidField) == Int(st.lastUid + 1))
  {
    var o := ImportOutcome(userTable, user, ldapUser, behavior, disableField, env, password, st);
    var s := Stash(user, disableField);
    if env.userGroups(ldapUser).Some? && IsEmpty(Get(s.user, UidField)) {
      var row := NewUserRecord(s.user, env.userGroups(ldapUser).value, env, password);
      var stored := row[UidField := Int(st.lastUid + 1)];
      assert o.writes == [] + [Added(userTable, row)];
      assert o.result == Finish(stored, s.extraData, env.postProcessors);
      ReplayStep(st, [], Added(userTable, row));
      assert RowsOf(Replay(st, o.writes), userTable) == RowsOf(st, userTable) + [stored];
    }
  }

  // ---------------------------------------------------------------------
  // The importer

  class UserImportUtility {
    const configuration: Configuration
    const userTable: string
    const groupTable: string
    var context: string
    var usersAdded: nat
    var usersUpdated: nat
    /** The records handed to `Import`, in call order. */
    ghost var imported: seq<Record>

    /** `Configuration::initialize` has produced the two configurations. */
    constructor (context: string, frontend: Configuration, backend: Configuration)
      ensures this.context == ToLower(context)
      ensures configuration == if ToLower(context) == "fe" then frontend else backend
      ensures userTable == (if ToLower(context) == "be" then "be_users" else "fe_users")
      ensures groupTable == (if ToLower(context) == "be" then "be_groups" else "fe_groups")
      ensures usersAdded == 0 && usersUpdated == 0 && imported == []
    {
      this.context := ToLower(context);
      configuration := if ToLower(context) == "fe" then frontend else backend;
      if ToLower(context) == "be" {
        userTable := "be_users";
        groupTable := "be_groups";
      } else {
        userTable := "fe_users";
        groupTable := "fe_groups";
      }
      usersAdded := 0;
      usersUpdated := 0;
      imported := [];
    }

    function GetUsersAdded(): nat
      reads this
    {
      usersAdded
    }

    function GetUsersUpdated(): nat
      reads this
    {
      usersUpdated
    }

    /** The search `fetchLdapUsers` issues. */
    function UsersSearch(continueLastSearch: bool): SearchRequest {
      var users := configuration.users;
      SearchRequest(users.basedn, users.filter, if users.extendedMapping then [] else users.mappingAttributes,
                    false, 0, continueLastSearch)
    }

    /** No search is made without a connection or without a users base DN. */
    predicate CanSearch(ldap: Ldap?) {
      ldap != null && !IsEmpty(Str(configuration.users.basedn))
    }

    /** One page of directory users, without the `count` element. */
    method FetchLdapUsers(continueLastSearch: bool, ldap: Ldap?) returns (users: seq<Record>)
      modifies ldap
      ensures !CanSearch(ldap) ==> users == [] && (ldap != null ==> unchanged(ldap))
      ensures CanSearch(ldap) ==>
                && ldap.pages == old(ldap.pages)
                && users == old(ldap.PageAt(ldap.StartOf(continueLastSearch)))
                && ldap.cursor == (var start := old(ldap.StartOf(continueLastSearch));
                                   if start < |ldap.pages| then start + 1 else start)
                && ldap.requests == old(ldap.requests) + [UsersSearch(continueLastSearch)]
    {
      users := [];
      if ldap == null {
        return;
      }
      if !IsEmpty(Str(configuration.users.basedn)) {
        var result := ldap.Search(UsersSearch(continueLastSearch));
        users := result.entries;
      }
    }

    /** The previous search left pages on the server; false without a connection. */
    method HasMoreLdapUsers(ldap: Ldap?) returns (more: bool)
      ensures more <==> ldap != null && ldap.IsPartialSearchResult()
    {
      more := false;
      if ldap != null {
        more := ldap.IsPartialSearchResult();
      }
    }

    /**
     * Imports one merged user record. Gating: when the user's groups resolve
     * to null nothing is written and nothing is counted. A record without a
     * uid is added (one more user added); otherwise the restore policy is
     * applied and the row updated (one more user updated when the update
     * reports success). The extra data is kept away from the store and put
     * back on the returned record, after which misregistered
     * post-processors raise exception 1414136057.
     */
    method Import(user: Record, ldapUser: Record, restoreBehavior: string, disableField: string,
                  env: ImportEnvironment, store: Store, password: Value)
      returns (result: Result<Record, ImportUsersException>)
      modifies this`usersAdded, this`usersUpdated, this`imported, store
      ensures imported == old(imported) + [user]
      ensures usersAdded + usersUpdated <= old(usersAdded + usersUpdated) + 1
      ensures env.userGroups(ldapUser).None? ==>
                && result == Ok(Stash(user, disableField).user)
                && usersAdded == old(usersAdded) && usersUpdated == old(usersUpdated)
                && unchanged(store)
      ensures env.userGroups(ldapUser).Some? && IsEmpty(Get(Stash(user, disableField).user, UidField)) ==>
                var s := Stash(user, disableField);
                var row := NewUserRecord(s.user, env.userGroups(ldapUser).value, env, password);
                && store.log == old(store.log) + [Added(userTable, row)]
                && usersAdded == old(usersAdded) + 1 && usersUpdated == old(usersUpdated)
                && result == Finish(row[UidField := Int(store.lastUid)], s.extraData, env.postProcessors)
                && store.tables == old(store.tables)[userTable := old(store.Rows(userTable)) + [row[UidField := Int(store.lastUid)]]]
      ensures env.userGroups(ldapUser).Some? && !IsEmpty(Get(Stash(user, disableField).user, UidField)) ==>
                var s := Stash(user, disableField);
                var row := UpdatedUserRecord(s.user, env.userGroups(ldapUser).value, restoreBehavior,
                                             s.restoreDisableValue, env);
                var success := Addresses(old(store.Rows(userTable)), row);
                && store.log == old(store.log) + [Updated(userTable, row, success)]
                && store.lastUid == old(store.lastUid)
                && usersAdded == old(usersAdded)
                && usersUpdated == old(usersUpdated) + (if success then 1 else 0)
                && result == Finish(row, s.extraData, env.postProcessors)
                && store.tables == old(store.tables)[userTable := Overwrite(old(store.Rows(userTable)), row)]
      ensures var o := ImportOutcome(userTable, user, ldapUser, restoreBehavior, disableField, env, password,
                                     old(store.State()));
              && result == o.result
              && store.log == old(store.log) + o.writes
              && store.State() == Replay(old(store.State()), o.writes)
              && usersAdded == old(usersAdded) + o.added && usersUpdated == old(usersUpdated) + o.updated
    {
      ghost var o := ImportOutcome(userTable, user, ldapUser, restoreBehavior, disableField, env, password,
                                   store.State());
      ghost var before := store.State();
      imported := imported + [user];
      var s := Stash(user, disableField);
      var u := s.user;
      var groups := env.userGroups(ldapUser);
      if groups.None? {
        // Required directory groups are missing
        return Ok(u);
      }
      if IsEmpty(Get(u, UidField)) {
        u := NewUserRecord(u, groups.value, env, password);
        assert o.writes == [Added(userTable, u)];
        ReplayStep(before, [], Added(userTable, u));
        u := store.Add(userTable, u);
        assert o.result == Finish(u, s.extraData, env.postProcessors);
        usersAdded := usersAdded + 1;
      } else {
        u := UpdatedUserRecord(u, groups.value, restoreBehavior, s.restoreDisableValue, env);
        var success := store.Update(userTable, u);
        assert o.writes == [Updated(userTable, u, success)];
        ReplayStep(before, [], Updated(userTable, u, success));
        assert o.result == Finish(u, s.extraData, env.postProcessors);
        if success {
          usersUpdated := usersUpdated + 1;
        }
      }
      result := RestoreExtraData(u, s.extraData, env.postProcessors);
    }
  }
}
