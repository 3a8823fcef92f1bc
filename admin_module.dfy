/**
 * The reconciliation code embedded in the backend module (mod1/index.php):
 * the row status shown for every user and group, the choice of the
 * configuration record, the attribute list of the search wizard, the group
 * import with parent-group linking, and the paged user import.
 */
module AdminModule {
  import opened Wrappers
  import opened Php
  import opened Persistence
  import opened Directory
  import opened UserImport

  const DeletedField := "deleted"
  const SubgroupField := "subgroup"
  const ParentGroupField := "parentGroup"
  const UserUidMarker := "{USERUID}"

  // ---------------------------------------------------------------------
  // Row status

  /** How a listed user or group is shown: its row class and whether its box is ticked. */
  datatype RowStatus = NotImported | Deleted | Imported

  /** uid 0: not imported; otherwise deleted 1: deleted; otherwise imported (loose comparisons). */
  function Classify(rec: Record): RowStatus {
    if LooseEqualsInt(Get(rec, UidField), 0) then NotImported
    else if LooseEqualsInt(Get(rec, DeletedField), 1) then Deleted
    else Imported
  }

  /** Only imported rows are pre-selected for the next import. */
  predicate IsChecked(status: RowStatus) {
    status == Imported
  }

  /** A row the store has just added carries a fresh uid, so it is never listed as not imported. */
  lemma AddedRowIsListed(row: Record, uid: nat)
    requires uid >= 1
    ensures Classify(row[UidField := Int(uid)]) != NotImported
    ensures Classify(row[UidField := Int(uid)]) == Imported <==> !LooseEqualsInt(Get(row, DeletedField), 1)
  {
    assert Get(row[UidField := Int(uid)], DeletedField) == Get(row, DeletedField);
  }

  /**
   * The status does not depend on whether the uid column reads as an
   * integer or as its decimal string, as rows read from the database do.
   */
  lemma ClassifyUidAsString(rec: Record, n: int)
    ensures Classify(rec[UidField := Str(StringOf(Int(n)))]) == Classify(rec[UidField := Int(n)])
  {
    IntAsStringComparesEqual(n);
    assert LooseEqualsInt(Str(StringOf(Int(n))), 0) <==> n == 0;
    assert Get(rec[UidField := Str(StringOf(Int(n)))], DeletedField) == Get(rec[UidField := Int(n)], DeletedField);
  }

  // ---------------------------------------------------------------------
  // Configuration selection

  /** A row of the LDAP configuration table, as the selector uses it. */
  datatype ConfigurationRecord = ConfigurationRecord(uid: nat, name: string)

  /** `$config == $configurationRecord['uid']` */
  predicate Requests(config: Value, record: ConfigurationRecord) {
    LooseEqualsInt(config, record.uid)
  }

  /** The index of a record the request matches: the last one. */
  function LastMatch(records: seq<ConfigurationRecord>, config: Value): (k: Option<nat>)
    ensures k.Some? ==> k.value < |records| && Requests(config, records[k.value])
  {
    if records == [] then None
    else if Requests(config, records[|records| - 1]) then Some(|records| - 1)
    else LastMatch(records[..|records| - 1], config)
  }

  /** No later record matches, and there is no match only when no record matches. */
  lemma {:induction false} LastMatchIsLast(records: seq<ConfigurationRecord>, config: Value)
    ensures var k := LastMatch(records, config);
            && (k.Some? ==> forall j :: k.value < j < |records| ==> !Requests(config, records[j]))
            && (k.None? <==> forall j :: 0 <= j < |records| ==> !Requests(config, records[j]))
  {
    if records != [] {
      var n := |records| - 1;
      var front := records[..n];
      LastMatchIsLast(front, config);
      if !Requests(config, records[n]) {
        assert LastMatch(records, config) == LastMatch(front, config);
        assert forall j :: 0 <= j < n ==> front[j] == records[j];
      }
    }
  }

  /** Looking at one more record: it becomes the last match when the request matches it. */
  lemma LastMatchStep(records: seq<ConfigurationRecord>, config: Value, i: nat)
    requires i < |records|
    ensures LastMatch(records[..i + 1], config)
              == if Requests(config, records[i]) then Some(i) else LastMatch(records[..i], config)
  {
    assert records[..i + 1][..i] == records[..i];
  }

  /**
   * The record the module works with: the only one, else the last one the
   * request matches, else the first.
   */
  function SelectedConfiguration(records: seq<ConfigurationRecord>, config: Value): ConfigurationRecord
    requires |records| > 0
  {
    if |records| == 1 then records[0]
    else match LastMatch(records, config)
      case Some(k) => records[k]
      case None => records[0]
  }

  /** With distinct uids, requesting the uid of a record selects that record. */
  lemma RequestedRecordIsSelected(records: seq<ConfigurationRecord>, i: nat)
    requires i < |records|
    requires forall j, k :: 0 <= j < k < |records| ==> records[j].uid != records[k].uid
    ensures SelectedConfiguration(records, Int(records[i].uid)) == records[i]
  {
    var config := Int(records[i].uid);
    if |records| > 1 {
      var k := LastMatch(records, config);
      LastMatchIsLast(records, config);
      assert Requests(config, records[i]);
      assert k.Some?;
      assert k.value == i;
    }
  }

  /** A request nothing matches falls back to the first record. */
  lemma UnmatchedRequestSelectsFirst(records: seq<ConfigurationRecord>, config: Value)
    requires |records| > 0
    requires forall j :: 0 <= j < |records| ==> !Requests(config, records[j])
    ensures SelectedConfiguration(records, config) == records[0]
  {
    LastMatchIsLast(records, config);
  }

  /** The selection is always one of the records. */
  lemma SelectionIsARecord(records: seq<ConfigurationRecord>, config: Value)
    requires |records| > 0
    ensures SelectedConfiguration(records, config) in records
  {
  }

  // ---------------------------------------------------------------------
  // Search wizard attributes

  /** One side (users or groups) of a mode's configuration. */
  datatype EntryConfiguration = EntryConfiguration(basedn: string, filter: string, mappingAttributes: seq<string>)

  /** The configuration of one mode (`be` or `fe`), as `tx_igldapssoauth_config` hands it out. */
  datatype ModeConfiguration = ModeConfiguration(users: EntryConfiguration, groups: EntryConfiguration)

  /** When the groups filter mentions `{USERUID}`, the users' `uid` attribute is fetched as well. */
  function WithUserUid(attributes: seq<string>, groupsFilter: string): seq<string> {
    if Contains(groupsFilter, UserUidMarker) then Unique(attributes + ["uid"]) else attributes
  }

  /** Appending to a list and de-duplicating it. */
  lemma UniqueAfterAppend(base: seq<string>, x: string)
    ensures var r := Unique(base + [x]);
            && x in r
            && NoDuplicates(r)
            && (forall e :: e in r <==> e in base || e == x)
            && InFirstOccurrenceOrder(base + [x], r)
            && (NoDuplicates(base) ==> r == if x in base then base else base + [x])
  {
    UniqueKeepsFirstOccurrenceOrder(base + [x]);
    if NoDuplicates(base) {
      UniqueAppend(base, x);
    }
  }

  /**
   * With the marker, the list holds `uid`, has no duplicates, and holds
   * exactly the configured attributes and `uid`, each where it first
   * occurred; a list that was already duplicate-free only gains `uid` at
   * its end (if it lacked it). Without the marker the list is left alone.
   */
  lemma WithUserUidShape(attributes: seq<string>, groupsFilter: string)
    ensures var r := WithUserUid(attributes, groupsFilter);
            Contains(groupsFilter, UserUidMarker) ==>
              && "uid" in r && NoDuplicates(r)
              && (forall a :: a in r <==> a in attributes || a == "uid")
              && InFirstOccurrenceOrder(attributes + ["uid"], r)
              && (NoDuplicates(attributes) ==>
                    r == if "uid" in attributes then attributes else attributes + ["uid"])
    ensures !Contains(groupsFilter, UserUidMarker) ==> WithUserUid(attributes, groupsFilter) == attributes
  {
    if Contains(groupsFilter, UserUidMarker) {
      UniqueAfterAppend(attributes, "uid");
    }
  }

  /** The wizard form: its action, the chosen table (`be_users`, `fe_groups`, ...), and its two fields. */
  datatype WizardRequest = WizardRequest(action: string, table: string, firstEntry: bool, attributes: string)

  function ModeOf(mode: string, backend: ModeConfiguration, frontend: ModeConfiguration): ModeConfiguration {
    if mode == "be" then backend else frontend
  }

  /** The attribute list the `select` action shows for a table type. */
  function SelectAttributes(config: ModeConfiguration, entryType: string): seq<string> {
    if entryType == "users" then WithUserUid(config.users.mappingAttributes, config.groups.filter)
    else if entryType == "groups" then config.groups.mappingAttributes
    else []
  }

  /** The attributes field: empty when only the first entry is shown, else the comma-separated list. */
  function AttributesField(firstEntry: bool, attributes: seq<string>): string {
    if firstEntry then "" else Implode(',', attributes)
  }

  /** The attributes field of the search form after `search_wizard`'s switch. */
  function WizardAttributes(request: WizardRequest, backend: ModeConfiguration, frontend: ModeConfiguration): string {
    if request.action == "select" then
      var parts := Explode('_', request.table);
      var entryType := if |parts| > 1 then parts[1] else "";
      AttributesField(request.firstEntry, SelectAttributes(ModeOf(parts[0], backend, frontend), entryType))
    else if request.action == "search" then
      request.attributes
    else
      // The default action forces `first_entry` on, so the computed list is never shown
      AttributesField(true, WithUserUid(backend.users.mappingAttributes, backend.groups.filter))
  }

  /** A table name `<mode>_<kind>` splits into its mode and its kind when neither holds an underscore. */
  lemma TableNameSplits(mode: string, kind: string)
    requires '_' !in mode && '_' !in kind
    ensures Explode('_', mode + "_" + kind) == [mode, kind]
  {
    ExplodeFirstPart('_', mode, kind);
    ExplodeWithoutDelimiter('_', kind);
    assert mode + "_" + kind == mode + ['_'] + kind;
  }

  /** Selecting a users table, beyond the first entry, shows that mode's users list joined by commas. */
  lemma SelectUsersField(request: WizardRequest, mode: string, backend: ModeConfiguration,
                         frontend: ModeConfiguration)
    requires request.action == "select" && !request.firstEntry
    requires mode == "be" || mode == "fe"
    requires request.table == mode + "_users"
    ensures var config := ModeOf(mode, backend, frontend);
            WizardAttributes(request, backend, frontend)
              == Implode(',', WithUserUid(config.users.mappingAttributes, config.groups.filter))
  {
    TableNameSplits(mode, "users");
    assert request.table == mode + "_" + "users";
    var parts := Explode('_', request.table);
    assert parts == [mode, "users"];
    assert |parts| > 1 && parts[0] == mode && parts[1] == "users";
  }

  /** With the marker, the joined users list splits back into a duplicate-free list holding `uid`. */
  lemma UidListSplitsBack(attributes: seq<string>, groupsFilter: string)
    requires Contains(groupsFilter, UserUidMarker)
    requires forall a :: a in attributes ==> ',' !in a
    ensures var shown := Explode(',', Implode(',', WithUserUid(attributes, groupsFilter)));
            "uid" in shown && NoDuplicates(shown)
  {
    var attrs := Unique(attributes + ["uid"]);
    assert WithUserUid(attributes, groupsFilter) == attrs;
    forall a | a in attrs
      ensures ',' !in a
    {
      assert a in attributes + ["uid"];
    }
    ExplodeImplode(',', attrs);
  }

  /**
   * Selecting a users table with the marker in that mode's groups filter,
   * and more than the first entry, shows a field that splits back into a
   * duplicate-free list holding `uid`.
   */
  lemma SelectUsersShowsUid(request: WizardRequest, mode: string, backend: ModeConfiguration,
                            frontend: ModeConfiguration)
    requires request.action == "select" && !request.firstEntry
    requires mode == "be" || mode == "fe"
    requires request.table == mode + "_users"
    requires Contains(ModeOf(mode, backend, frontend).groups.filter, UserUidMarker)
    requires forall a :: a in ModeOf(mode, backend, frontend).users.mappingAttributes ==> ',' !in a
    ensures var shown := Explode(',', WizardAttributes(request, backend, frontend));
            "uid" in shown && NoDuplicates(shown)
  {
    var config := ModeOf(mode, backend, frontend);
    SelectUsersField(request, mode, backend, frontend);
    UidListSplitsBack(config.users.mappingAttributes, config.groups.filter);
  }

  /** The default action never lists attributes. */
  lemma DefaultActionShowsNoAttributes(request: WizardRequest, backend: ModeConfiguration, frontend: ModeConfiguration)
    requires request.action != "select" && request.action != "search"
    ensures WizardAttributes(request, backend, frontend) == ""
  {
  }

  // ---------------------------------------------------------------------
  // Parent-group subgroup lists

  /**
   * The list the child is added to: the parent's stored list when it has
   * one, otherwise the list built for the previous parent of the same child
   * (it is initialised once, before the loop over the parents).
   */
  function SubGroupBase(previous: seq<string>, stored: Value): seq<string> {
    if !IsEmpty(stored) then TrimExplode(',', StringOf(stored)) else previous
  }

  /** The list written into an existing parent: the base list plus the child's uid, de-duplicated. */
  function NextSubGroupList(previous: seq<string>, stored: Value, childUid: Value): seq<string> {
    Unique(SubGroupBase(previous, stored) + [StringOf(childUid)])
  }

  /**
   * The written list holds the child, has no duplicates, and keeps the
   * entries it started from, each at its first occurrence and in order.
   */
  lemma NextSubGroupListShape(previous: seq<string>, stored: Value, childUid: Value)
    ensures var base := SubGroupBase(previous, stored);
            var child := StringOf(childUid);
            var r := NextSubGroupList(previous, stored, childUid);
            && child in r
            && NoDuplicates(r)
            && (forall e :: e in r <==> e in base || e == child)
            && InFirstOccurrenceOrder(base + [child], r)
            && (NoDuplicates(base) ==> r == if child in base then base else base + [child])
  {
    UniqueAfterAppend(SubGroupBase(previous, stored), StringOf(childUid));
  }

  /**
   * A parent whose stored list was written by this module (a non-empty,
   * duplicate-free list of entries joined by commas) is written that list
   * with the child appended, or the same list when the child is already on
   * it; the list built for earlier parents plays no part.
   */
  lemma StoredListExtended(previous: seq<string>, r: seq<string>, childUid: Value)
    requires |r| >= 1 && NoDuplicates(r)
    requires forall e :: e in r ==> ListEntry(e)
    requires !IsEmpty(Str(Implode(',', r)))
    ensures var child := StringOf(childUid);
            NextSubGroupList(previous, Str(Implode(',', r)), childUid) == if child in r then r else r + [child]
  {
    EntriesReadBack(r);
    assert SubGroupBase(previous, Str(Implode(',', r))) == r;
    UniqueAppend(r, StringOf(childUid));
  }

  /**
   * The carry-over: a parent whose stored list is empty receives the list
   * built for the previous parent of the same child, unchanged, since the
   * child is already on it (the list is not reset to the child alone).
   */
  lemma SubGroupListCarriesOver(previous: seq<string>, stored: Value, empty: Value, childUid: Value)
    requires IsEmpty(empty)
    ensures var first := NextSubGroupList(previous, stored, childUid);
            NextSubGroupList(first, empty, childUid) == first
  {
    var first := NextSubGroupList(previous, stored, childUid);
    NextSubGroupListShape(previous, stored, childUid);
    assert SubGroupBase(first, empty) == first;
    UniqueAppend(first, StringOf(childUid));
  }

  /** An entry of a stored subgroup list as `trimExplode` yields it. */
  predicate ListEntry(e: string) {
    ',' !in e && Trim(e) == e
  }

  lemma UidStringIsEntry(n: int)
    ensures ListEntry(StringOf(Int(n)))
  {
    var s := StringOf(Int(n));
    var digits := DecimalString(if n < 0 then -n else n);
    assert s[|s| - 1] == digits[|digits| - 1];
    assert IsDigit(s[|s| - 1]);
    TrimOfTrimmed(s);
  }

  /** A list of entries, joined with commas and split and trimmed again, is the same list. */
  lemma EntriesReadBack(r: seq<string>)
    requires |r| >= 1
    requires forall e :: e in r ==> ListEntry(e)
    ensures TrimExplode(',', Implode(',', r)) == r
  {
    ExplodeImplode(',', r);
    var t := TrimExplode(',', Implode(',', r));
    assert |t| == |r|;
    forall i | 0 <= i < |r|
      ensures t[i] == r[i]
    {
      assert r[i] in r;
    }
  }

  /**
   * Partner of the write: the list written into a parent for an integer
   * child uid is read back, by the next `trimExplode`, as the same list.
   */
  lemma SubGroupListReadsBack(previous: seq<string>, stored: Value, n: int)
    requires forall e :: e in previous ==> ListEntry(e)
    ensures var r := NextSubGroupList(previous, stored, Int(n));
            TrimExplode(',', Implode(',', r)) == r
  {
    var r := NextSubGroupList(previous, stored, Int(n));
    UidStringIsEntry(n);
    NextSubGroupListShape(previous, stored, Int(n));
    EntriesReadBack(r);
  }

  // ---------------------------------------------------------------------
  // Group import

  /** What the group import and parent linking call; the bodies are not part of this model. */
  datatype GroupEnv = GroupEnv(
    /** the groups base DN */
    basedn: string,
    /** the groups filter after `replace_filter_markers` */
    filter: string,
    /** the entries `tx_igldapssoauth_ldap::search(basedn, filter, attributes)` returns for a filter, without `count` */
    search: string -> seq<Record>,
    /** `get_typo3_groups`: the local record for every entry, a fresh one where none exists */
    localGroups: seq<Record> -> seq<Record>,
    /** `tx_igldapssoauth_auth::merge` with the groups mapping */
    merge: (Record, Record) -> Record,
    /** the attribute named by the `parentGroup` mapping; None when the mapping is empty or names none */
    parentField: Option<string>)

  /** The i-th local record; the list is aligned with the entries it was built for. */
  function LocalAt(locals: seq<Record>, i: nat): Record {
    if i < |locals| then locals[i] else map[]
  }

  /** Every entry merged with its local record. */
  function MergedEntries(entries: seq<Record>, locals: seq<Record>, merge: (Record, Record) -> Record): (ms: seq<Record>)
    ensures |ms| == |entries|
    ensures forall i :: 0 <= i < |entries| ==> ms[i] == merge(entries[i], LocalAt(locals, i))
  {
    seq(|entries|, i requires 0 <= i < |entries| => merge(entries[i], LocalAt(locals, i)))
  }

  /** The directory groups listed: none without a base DN. */
  function GroupSearch(env: GroupEnv): seq<Record> {
    if !IsEmpty(Str(env.basedn)) then env.search(env.filter) else []
  }

  /** The filter of the secondary search for a missing parent. */
  function ParentFilter(env: GroupEnv, parentDn: string): string {
    "(&" + env.filter + "&(distinguishedName=" + parentDn + "))"
  }

  /** `t3lib_div::inArray`: some non-array element compares equal as a string. */
  predicate InArray(selected: seq<Value>, item: Value) {
    exists v | v in selected :: !v.Arr? && StringOf(v) == StringOf(item)
  }

  predicate IsNew(rec: Record) {
    LooseEqualsInt(Get(rec, UidField), 0)
  }

  predicate IsSelectedGroup(selected: seq<Value>, group: Record) {
    InArray(selected, Get(group, DnField))
  }

  /**
   * The status shown for a listed group: as merged when it is not
   * selected; never "not imported" once a new group is added; "imported"
   * once an existing group is restored.
   */
  predicate ShownAs(selected: seq<Value>, group: Record, status: RowStatus) {
    && (!IsSelectedGroup(selected, group) ==> status == Classify(group))
    && (IsSelectedGroup(selected, group) && IsNew(group) ==> status != NotImported)
    && (IsSelectedGroup(selected, group) && !IsNew(group) ==> status == Imported)
  }

  /** One more row shown as its group requires. */
  lemma ShownAsExtend(selected: seq<Value>, groups: seq<Record>, rows: seq<RowStatus>, status: RowStatus)
    requires |rows| < |groups|
    requires forall j :: 0 <= j < |rows| ==> ShownAs(selected, groups[j], rows[j])
    requires ShownAs(selected, groups[|rows|], status)
    ensures forall j :: 0 <= j < |rows| + 1 ==> ShownAs(selected, groups[j], (rows + [status])[j])
  {
  }

  /** Selected groups without a uid: those the import adds. */
  function CountNew(groups: seq<Record>, selected: seq<Value>): nat {
    if groups == [] then 0
    else
      var last := groups[|groups| - 1];
      CountNew(groups[..|groups| - 1], selected) + if IsSelectedGroup(selected, last) && IsNew(last) then 1 else 0
  }

  /** Selected groups with a uid: those the import updates. */
  function CountExisting(groups: seq<Record>, selected: seq<Value>): nat {
    if groups == [] then 0
    else
      var last := groups[|groups| - 1];
      CountExisting(groups[..|groups| - 1], selected) + if IsSelectedGroup(selected, last) && !IsNew(last) then 1 else 0
  }

  /** Counting one more group. */
  lemma CountStep(groups: seq<Record>, i: nat, selected: seq<Value>)
    requires i < |groups|
    ensures CountNew(groups[..i + 1], selected)
         == CountNew(groups[..i], selected) + if IsSelectedGroup(selected, groups[i]) && IsNew(groups[i]) then 1 else 0
    ensures CountExisting(groups[..i + 1], selected)
         == CountExisting(groups[..i], selected) + if IsSelectedGroup(selected, groups[i]) && !IsNew(groups[i]) then 1 else 0
  {
    assert groups[..i + 1][..i] == groups[..i];
  }

  /**
   * Every group is counted at most once, and nothing is counted exactly
   * when nothing is selected.
   */
  lemma {:induction false} CountsBounded(groups: seq<Record>, selected: seq<Value>)
    ensures CountNew(groups, selected) + CountExisting(groups, selected) <= |groups|
    ensures CountNew(groups, selected) + CountExisting(groups, selected) == 0 <==>
              forall i :: 0 <= i < |groups| ==> !IsSelectedGroup(selected, groups[i])
  {
    if groups != [] {
      var n := |groups| - 1;
      var front := groups[..n];
      CountsBounded(front, selected);
      assert forall i :: 0 <= i < n ==> front[i] == groups[i];
    }
  }

  /** A subgroup value that is the uid of a group created after uid `lo`. */
  predicate CreatedAfter(v: Value, lo: nat) {
    v.Int? && v.i > lo
  }

  /** The row's `subgroup` column is a comma-separated list naming `child`. */
  ghost predicate LinksChild(row: Record, child: Value) {
    exists l: seq<string> :: Get(row, SubgroupField) == Str(Implode(',', l)) && StringOf(child) in l
  }

  /** The row's `subgroup` list names some group created after uid `lo`. */
  ghost predicate LinksCreated(row: Record, lo: nat) {
    exists u: int :: u > lo && LinksChild(row, Int(u))
  }

  /**
   * A write parent linking may issue for `child`: a created parent without
   * `parentGroup` whose `subgroup` is the child (or, further up, a group
   * created on the way), or an update of an existing parent whose list
   * names the child (or a group created on the way).
   */
  ghost predicate ParentWrite(c: Call, table: string, child: Value, lo: nat) {
    && c.table == table
    && (c.Added? ==> ParentGroupField !in c.row
                     && (Get(c.row, SubgroupField) == child || CreatedAfter(Get(c.row, SubgroupField), lo)))
    && (c.Updated? ==> LinksChild(c.row, child) || LinksCreated(c.row, lo))
  }

  /** The writes for a group created after `lo` are writes for the original child. */
  lemma ParentWriteWidens(c: Call, table: string, u: nat, child: Value, lo: nat)
    requires lo < u
    requires ParentWrite(c, table, Int(u), u)
    ensures ParentWrite(c, table, child, lo)
  {
    if c.Updated? && !LinksChild(c.row, Int(u)) {
      var w :| w > u && LinksChild(c.row, Int(w));
    }
  }

  /** A write parent linking may issue for `child` may also be counted against an earlier last uid. */
  lemma ParentWriteLowers(c: Call, table: string, child: Value, lo: nat, lower: nat)
    requires lower <= lo
    requires ParentWrite(c, table, child, lo)
    ensures ParentWrite(c, table, child, lower)
  {
    if c.Updated? && !LinksChild(c.row, child) {
      var w :| w > lo && LinksChild(c.row, Int(w));
    }
  }

  /** A missing parent as it is added: merged, without `parentGroup`, with the child as its `subgroup`. */
  function NewParentRecord(merged: Record, childUid: Value): Record {
    (merged - {ParentGroupField})[SubgroupField := childUid]
  }

  /** What linking a child into its parents yields: the writes, the list carried over, and whether a recursion was cut. */
  datatype Linking = Linking(writes: seq<Call>, list: seq<string>, exhausted: bool)

  /**
   * `setParentGroup` over the first `p` parent DNs, from a store in state
   * `st` (see `LinkOne`).
   */
  function LinkParents(parents: seq<Value>, p: nat, fieldParent: string, childUid: Value, table: string,
                       env: GroupEnv, st: StoreState, fuel: nat): Linking
    requires p <= |parents|
    decreases fuel, 1, p
  {
    if p == 0 then Linking([], [], false)
    else
      var prev := LinkParents(parents, p - 1, fieldParent, childUid, table, env, st, fuel);
      LinkOne(prev, parents[p - 1], fieldParent, childUid, table, env, st, fuel)
  }

  /**
   * One parent DN, after the writes of `prev`: an existing parent (the first
   * row with that DN) gets the child added to the carried-over list, which
   * is then written into it; a missing parent is looked up with the
   * secondary search and created.
   */
  function LinkOne(prev: Linking, parent: Value, fieldParent: string, childUid: Value, table: string,
                   env: GroupEnv, st: StoreState, fuel: nat): Linking
    decreases fuel, 1, 0
  {
    var now := Replay(st, prev.writes);
    var dn := StringOf(parent);
    var existing := WithDn(RowsOf(now, table), dn);
    if |existing| > 0 then
      var list := NextSubGroupList(prev.list, Get(existing[0], SubgroupField), childUid);
      var linked := existing[0][SubgroupField := Str(Implode(',', list))];
      Linking(prev.writes + [Updated(table, linked, Addresses(RowsOf(now, table), linked))], list, prev.exhausted)
    else
      var found := env.search(ParentFilter(env, dn));
      var created := CreateGroups(found, |found|, fieldParent, childUid, table, env, now, fuel);
      Linking(prev.writes + created.writes, prev.list, prev.exhausted || created.exhausted)
  }

  /**
   * The missing-parent branch over the first `j` groups the secondary search
   * found (see `CreateOne`).
   */
  function CreateGroups(groups: seq<Record>, j: nat, fieldParent: string, childUid: Value, table: string,
                        env: GroupEnv, st: StoreState, fuel: nat): Linking
    requires j <= |groups|
    decreases fuel, 0, j
  {
    if j == 0 then Linking([], [], false)
    else
      var prev := CreateGroups(groups, j - 1, fieldParent, childUid, table, env, st, fuel);
      var merged := MergedEntries(groups, env.localGroups(groups), env.merge)[j - 1];
      var one := CreateOne(merged, Get(groups[j - 1], fieldParent), fieldParent, childUid, table, env,
                           Replay(st, prev.writes), fuel);
      Linking(prev.writes + one.writes, [], prev.exhausted || one.exhausted)
  }

  /**
   * One group found for a missing parent, from state `now`: it is added as
   * `NewParentRecord`, then, when its entry lists parents, linked into them
   * with its new uid, one level of fuel less.
   */
  function CreateOne(merged: Record, parentsField: Value, fieldParent: string, childUid: Value, table: string,
                     env: GroupEnv, now: StoreState, fuel: nat): Linking
    decreases fuel, 0, 0
  {
    var add := Added(table, NewParentRecord(merged, childUid));
    if !parentsField.Arr? then
      Linking([add], [], false)
    else if fuel == 0 then
      Linking([add], [], true)
    else
      var up := LinkParents(parentsField.items, |parentsField.items|, fieldParent, Int(now.lastUid + 1), table,
                            env, Apply(now, add), fuel - 1);
      Linking([add] + up.writes, [], up.exhausted)
  }

  /** Every write of a run is a parent write for `child`, counted against the uid `lo` the run started from. */
  ghost predicate ParentWrites(calls: seq<Call>, table: string, child: Value, lo: nat) {
    forall k :: 0 <= k < |calls| ==> ParentWrite(calls[k], table, child, lo)
  }

  /** A run of parent writes, that creates a group if its recursion was cut. */
  ghost predicate LinkingWrites(l: Linking, table: string, child: Value, lo: nat) {
    ParentWrites(l.writes, table, child, lo) && (l.exhausted ==> AddCount(l.writes) > 0)
  }

  /** Two runs of parent writes, one after the other. */
  lemma ParentWritesAppend(a: seq<Call>, b: seq<Call>, table: string, child: Value, lo: nat)
    requires ParentWrites(a, table, child, lo) && ParentWrites(b, table, child, lo)
    ensures ParentWrites(a + b, table, child, lo)
    ensures AddCount(a + b) == AddCount(a) + AddCount(b)
  {
    forall k | 0 <= k < |a + b|
      ensures ParentWrite((a + b)[k], table, child, lo)
    {
      if k >= |a| {
        assert (a + b)[k] == b[k - |a|];
      }
    }
    ReplayAppend(StoreState(map[], 0), a, b);
  }

  /** After a run of parent writes from `st`, the last uid is no smaller. */
  lemma ParentWritesRaiseUid(st: StoreState, calls: seq<Call>, table: string, child: Value, lo: nat)
    requires ParentWrites(calls, table, child, lo)
    ensures Replay(st, calls).lastUid >= st.lastUid
  {
    assert AllOn(calls, table);
    ReplayFrame(st, calls, table);
  }

  /**
   * Every write `setParentGroup` issues, to any depth, is a parent write for
   * the child, and a cut recursion implies that some group was created.
   */
  lemma {:induction false} LinkParentsWrites(parents: seq<Value>, p: nat, fieldParent: string, childUid: Value,
                                             table: string, env: GroupEnv, st: StoreState, fuel: nat)
    requires p <= |parents|
    ensures LinkingWrites(LinkParents(parents, p, fieldParent, childUid, table, env, st, fuel), table, childUid,
                          st.lastUid)
    decreases fuel, 1, p
  {
    if p > 0 {
      var prev := LinkParents(parents, p - 1, fieldParent, childUid, table, env, st, fuel);
      LinkParentsWrites(parents, p - 1, fieldParent, childUid, table, env, st, fuel);
      LinkOneWrites(prev, parents[p - 1], fieldParent, childUid, table, env, st, fuel);
    }
  }

  lemma {:induction false} LinkOneWrites(prev: Linking, parent: Value, fieldParent: string, childUid: Value,
                                         table: string, env: GroupEnv, st: StoreState, fuel: nat)
    requires LinkingWrites(prev, table, childUid, st.lastUid)
    ensures LinkingWrites(LinkOne(prev, parent, fieldParent, childUid, table, env, st, fuel), table, childUid,
                          st.lastUid)
    decreases fuel, 1, 0, 1
  {
    if |WithDn(RowsOf(Replay(st, prev.writes), table), StringOf(parent))| > 0 {
      LinkFoundWrites(prev, parent, fieldParent, childUid, table, env, st, fuel);
    } else {
      LinkMissingWrites(prev, parent, fieldParent, childUid, table, env, st, fuel);
    }
  }

  /** `LinkOneWrites` for a parent found in the store. */
  lemma LinkFoundWrites(prev: Linking, parent: Value, fieldParent: string, childUid: Value, table: string,
                        env: GroupEnv, st: StoreState, fuel: nat)
    requires LinkingWrites(prev, table, childUid, st.lastUid)
    requires |WithDn(RowsOf(Replay(st, prev.writes), table), StringOf(parent))| > 0
    ensures LinkingWrites(LinkOne(prev, parent, fieldParent, childUid, table, env, st, fuel), table, childUid,
                          st.lastUid)
  {
    var now := Replay(st, prev.writes);
    var existing := WithDn(RowsOf(now, table), StringOf(parent));
    var list := NextSubGroupList(prev.list, Get(existing[0], SubgroupField), childUid);
    var linked := existing[0][SubgroupField := Str(Implode(',', list))];
    NextSubGroupListShape(prev.list, Get(existing[0], SubgroupField), childUid);
    assert Get(linked, SubgroupField) == Str(Implode(',', list));
    assert LinksChild(linked, childUid);
    var more := [Updated(table, linked, Addresses(RowsOf(now, table), linked))];
    assert ParentWrites(more, table, childUid, st.lastUid);
    ParentWritesAppend(prev.writes, more, table, childUid, st.lastUid);
  }

  /** `LinkOneWrites` for a parent missing from the store. */
  lemma LinkMissingWrites(prev: Linking, parent: Value, fieldParent: string, childUid: Value, table: string,
                          env: GroupEnv, st: StoreState, fuel: nat)
    requires LinkingWrites(prev, table, childUid, st.lastUid)
    requires |WithDn(RowsOf(Replay(st, prev.writes), table), StringOf(parent))| == 0
    ensures LinkingWrites(LinkOne(prev, parent, fieldParent, childUid, table, env, st, fuel), table, childUid,
                          st.lastUid)
    decreases fuel, 1, 0, 0
  {
    var now := Replay(st, prev.writes);
    var found := env.search(ParentFilter(env, StringOf(parent)));
    var created := CreateGroups(found, |found|, fieldParent, childUid, table, env, now, fuel);
    CreateGroupsWrites(found, |found|, fieldParent, childUid, table, env, now, fuel);
    ParentWritesRaiseUid(st, prev.writes, table, childUid, st.lastUid);
    forall k | 0 <= k < |created.writes|
      ensures ParentWrite(created.writes[k], table, childUid, st.lastUid)
    {
      ParentWriteLowers(created.writes[k], table, childUid, now.lastUid, st.lastUid);
    }
    ParentWritesAppend(prev.writes, created.writes, table, childUid, st.lastUid);
  }

  lemma {:induction false} CreateGroupsWrites(groups: seq<Record>, j: nat, fieldParent: string, childUid: Value,
                                              table: string, env: GroupEnv, st: StoreState, fuel: nat)
    requires j <= |groups|
    ensures LinkingWrites(CreateGroups(groups, j, fieldParent, childUid, table, env, st, fuel), table, childUid,
                          st.lastUid)
    decreases fuel, 0, j
  {
    if j > 0 {
      var prev := CreateGroups(groups, j - 1, fieldParent, childUid, table, env, st, fuel);
      CreateGroupsWrites(groups, j - 1, fieldParent, childUid, table, env, st, fuel);
      var now := Replay(st, prev.writes);
      var merged := MergedEntries(groups, env.localGroups(groups), env.merge)[j - 1];
      var one := CreateOne(merged, Get(groups[j - 1], fieldParent), fieldParent, childUid, table, env, now, fuel);
      CreateOneWrites(merged, Get(groups[j - 1], fieldParent), fieldParent, childUid, table, env, now, fuel);
      ParentWritesRaiseUid(st, prev.writes, table, childUid, st.lastUid);
      forall k | 0 <= k < |one.writes|
        ensures ParentWrite(one.writes[k], table, childUid, st.lastUid)
      {
        ParentWriteLowers(one.writes[k], table, childUid, now.lastUid, st.lastUid);
      }
      ParentWritesAppend(prev.writes, one.writes, table, childUid, st.lastUid);
    }
  }

  lemma {:induction false} CreateOneWrites(merged: Record, parentsField: Value, fieldParent: string, childUid: Value,
                                           table: string, env: GroupEnv, now: StoreState, fuel: nat)
    ensures LinkingWrites(CreateOne(merged, parentsField, fieldParent, childUid, table, env, now, fuel), table,
                          childUid, now.lastUid)
    decreases fuel, 0, 0
  {
    var add := Added(table, NewParentRecord(merged, childUid));
    AddParentWrites([], merged, childUid, table, now.lastUid);
    assert [] + [add] == [add];
    if parentsField.Arr? && fuel > 0 {
      var u := now.lastUid + 1;
      var up := LinkParents(parentsField.items, |parentsField.items|, fieldParent, Int(u), table, env,
                            Apply(now, add), fuel - 1);
      LinkParentsWrites(parentsField.items, |parentsField.items|, fieldParent, Int(u), table, env,
                        Apply(now, add), fuel - 1);
      ParentWritesWiden(up.writes, table, u, childUid, now.lastUid);
      ParentWritesAppend([add], up.writes, table, childUid, now.lastUid);
    }
  }

  /** Adding a missing parent is a parent write, and an insert. */
  lemma AddParentWrites(calls: seq<Call>, merged: Record, childUid: Value, table: string, lo: nat)
    requires ParentWrites(calls, table, childUid, lo)
    ensures var add := Added(table, NewParentRecord(merged, childUid));
            ParentWrites(calls + [add], table, childUid, lo) && AddCount(calls + [add]) > 0
  {
    var add := Added(table, NewParentRecord(merged, childUid));
    assert Get(NewParentRecord(merged, childUid), SubgroupField) == childUid;
    assert ParentWrites([add], table, childUid, lo);
    ParentWritesAppend(calls, [add], table, childUid, lo);
    ReplayStep(StoreState(map[], 0), calls, add);
  }

  /** The writes linking a group created with uid `u` are writes for the original child. */
  lemma ParentWritesWiden(calls: seq<Call>, table: string, u: nat, child: Value, lo: nat)
    requires lo < u
    requires ParentWrites(calls, table, Int(u), u)
    ensures ParentWrites(calls, table, child, lo)
  {
    forall k | 0 <= k < |calls|
      ensures ParentWrite(calls[k], table, child, lo)
    {
      ParentWriteWidens(calls[k], table, u, child, lo);
    }
  }

  /** One more parent DN that names an existing row: one update, written with the extended list. */
  lemma LinkExistingStep(parents: seq<Value>, p: nat, fieldParent: string, childUid: Value, table: string,
                         env: GroupEnv, st: StoreState, fuel: nat)
    requires p < |parents|
    requires var prev := LinkParents(parents, p, fieldParent, childUid, table, env, st, fuel);
             |WithDn(RowsOf(Replay(st, prev.writes), table), StringOf(parents[p]))| > 0
    ensures var prev := LinkParents(parents, p, fieldParent, childUid, table, env, st, fuel);
            var now := Replay(st, prev.writes);
            var existing := WithDn(RowsOf(now, table), StringOf(parents[p]));
            var list := NextSubGroupList(prev.list, Get(existing[0], SubgroupField), childUid);
            var linked := existing[0][SubgroupField := Str(Implode(',', list))];
            var c := Updated(table, linked, Addresses(RowsOf(now, table), linked));
            LinkParents(parents, p + 1, fieldParent, childUid, table, env, st, fuel)
              == Linking(prev.writes + [c], list, prev.exhausted)
  {
  }

  /** One more parent DN that names no row: the groups the secondary search finds are created. */
  lemma LinkMissingStep(parents: seq<Value>, p: nat, fieldParent: string, childUid: Value, table: string,
                        env: GroupEnv, st: StoreState, fuel: nat)
    requires p < |parents|
    requires var prev := LinkParents(parents, p, fieldParent, childUid, table, env, st, fuel);
             |WithDn(RowsOf(Replay(st, prev.writes), table), StringOf(parents[p]))| == 0
    ensures var prev := LinkParents(parents, p, fieldParent, childUid, table, env, st, fuel);
            var now := Replay(st, prev.writes);
            var found := env.search(ParentFilter(env, StringOf(parents[p])));
            var created := CreateGroups(found, |found|, fieldParent, childUid, table, env, now, fuel);
            LinkParents(parents, p + 1, fieldParent, childUid, table, env, st, fuel)
              == Linking(prev.writes + created.writes, prev.list, prev.exhausted || created.exhausted)
  {
  }

  /**
   * The log and state after the first `j` groups found for a missing parent
   * were created, from `log0` and `st0`, and whether a recursion was cut.
   */
  ghost predicate CreatedSoFar(groups: seq<Record>, j: nat, fieldParent: string, childUid: Value, table: string,
                               env: GroupEnv, st0: StoreState, fuel: nat, log0: seq<Call>, log: seq<Call>,
                               st: StoreState, exhausted: bool)
    requires j <= |groups|
  {
    var l := CreateGroups(groups, j, fieldParent, childUid, table, env, st0, fuel);
    Follows(log0, st0, log, st, l.writes) && exhausted == l.exhausted
  }

  /** Creating the `j`-th group, from the state the others left, extends `CreatedSoFar` by one. */
  lemma CreatedOneMore(groups: seq<Record>, j: nat, fieldParent: string, childUid: Value, table: string,
                       env: GroupEnv, st0: StoreState, fuel: nat, log0: seq<Call>, log1: seq<Call>, st1: StoreState,
                       exhausted: bool, log2: seq<Call>, st2: StoreState, cut: bool)
    requires j < |groups|
    requires CreatedSoFar(groups, j, fieldParent, childUid, table, env, st0, fuel, log0, log1, st1, exhausted)
    requires var one := CreateOne(MergedEntries(groups, env.localGroups(groups), env.merge)[j],
                                  Get(groups[j], fieldParent), fieldParent, childUid, table, env, st1, fuel);
             Follows(log1, st1, log2, st2, one.writes) && cut == one.exhausted
    ensures CreatedSoFar(groups, j + 1, fieldParent, childUid, table, env, st0, fuel, log0, log2, st2, exhausted || cut)
  {
    var prev := CreateGroups(groups, j, fieldParent, childUid, table, env, st0, fuel);
    var one := CreateOne(MergedEntries(groups, env.localGroups(groups), env.merge)[j], Get(groups[j], fieldParent),
                         fieldParent, childUid, table, env, st1, fuel);
    FollowsAppend(log0, st0, log1, st1, prev.writes, log2, st2, one.writes);
  }

  /**
   * Linking a child into its parents issues only parent writes, never
   * lowers the last uid, and raises it when a recursion was cut.
   */
  lemma LinkParentsOutcome(parents: seq<Value>, fieldParent: string, childUid: Value, table: string, env: GroupEnv,
                           st: StoreState, fuel: nat)
    ensures var l := LinkParents(parents, |parents|, fieldParent, childUid, table, env, st, fuel);
            && ParentWrites(l.writes, table, childUid, st.lastUid)
            && st.lastUid <= Replay(st, l.writes).lastUid
            && (l.exhausted ==> st.lastUid < Replay(st, l.writes).lastUid)
  {
    var l := LinkParents(parents, |parents|, fieldParent, childUid, table, env, st, fuel);
    LinkParentsWrites(parents, |parents|, fieldParent, childUid, table, env, st, fuel);
    assert AllOn(l.writes, table);
    ReplayFrame(st, l.writes, table);
  }

  /** The entries a run of parent writes added to the log. */
  lemma LoggedParentWrites(log0: seq<Call>, log: seq<Call>, writes: seq<Call>, table: string, child: Value, lo: nat)
    requires log == log0 + writes && ParentWrites(writes, table, child, lo)
    ensures forall k :: |log0| <= k < |log| ==> ParentWrite(log[k], table, child, lo)
  {
    forall k | |log0| <= k < |log|
      ensures ParentWrite(log[k], table, child, lo)
    {
      assert log[k] == writes[k - |log0|];
    }
  }

  /** What importing one selected group yields: the row it is shown for, its writes, and what it counts. */
  datatype GroupStep = GroupStep(shown: Record, writes: seq<Call>, added: bool, updated: bool)

  /** The first write for a selected group: an insert without `parentGroup`, or a restoring update. */
  function FirstGroupWrite(table: string, group: Record, st: StoreState): Call {
    var base := group - {ParentGroupField};
    if IsNew(group) then Added(table, base)
    else
      var restored := base[DeletedField := Int(0)];
      Updated(table, restored, Addresses(RowsOf(st, table), restored))
  }

  /**
   * The branch of `import_groups`' loop for a selected group, from a store
   * in state `st`: the first write, then the group linked into the parents
   * its entry lists, under the uid it now has.
   */
  function SelectedGroupImport(table: string, group: Record, ldapGroup: Record, env: GroupEnv, st: StoreState,
                               fuel: nat): GroupStep {
    var first := FirstGroupWrite(table, group, st);
    var shown := if IsNew(group) then first.row[UidField := Int(st.lastUid + 1)] else first.row;
    var links :=
      if env.parentField.Some? && Get(ldapGroup, env.parentField.value).Arr? then
        var parents := Get(ldapGroup, env.parentField.value).items;
        LinkParents(parents, |parents|, env.parentField.value, Get(shown, UidField), table, env, Apply(st, first), fuel).writes
      else [];
    GroupStep(shown, [first] + links, IsNew(group), first.Updated? && first.success)
  }

  /**
   * A selected group's writes: first its own insert or update (without
   * `parentGroup`), then only parent writes for the uid it is shown with,
   * counted from the uid after its own insert. A new group is shown with
   * the uid it was stored under.
   */
  lemma SelectedGroupWrites(table: string, group: Record, ldapGroup: Record, env: GroupEnv, st: StoreState,
                            fuel: nat)
    ensures var g := SelectedGroupImport(table, group, ldapGroup, env, st, fuel);
            var lo := if IsNew(group) then st.lastUid + 1 else st.lastUid;
            && |g.writes| >= 1
            && g.writes[0].table == table && ParentGroupField !in g.writes[0].row
            && (g.writes[0].Added? <==> IsNew(group))
            && ParentWrites(g.writes[1..], table, Get(g.shown, UidField), lo)
            && (IsNew(group) ==> Get(g.shown, UidField) == Int(st.lastUid + 1)
                                 && Replay(st, g.writes[..1]).lastUid == st.lastUid + 1)
  {
    var g := SelectedGroupImport(table, group, ldapGroup, env, st, fuel);
    var first := FirstGroupWrite(table, group, st);
    assert g.writes[..1] == [] + [first];
    ReplayStep(st, [], first);
    if env.parentField.Some? && Get(ldapGroup, env.parentField.value).Arr? {
      var parents := Get(ldapGroup, env.parentField.value).items;
      LinkParentsWrites(parents, |parents|, env.parentField.value, Get(g.shown, UidField), table, env,
                        Apply(st, first), fuel);
      assert g.writes[1..] == LinkParents(parents, |parents|, env.parentField.value, Get(g.shown, UidField), table,
                                          env, Apply(st, first), fuel).writes;
    } else {
      assert g.writes[1..] == [];
    }
  }

  /** What `import_groups` writes, counts and shows over the first `i` listed groups. */
  datatype GroupsImported = GroupsImported(writes: seq<Call>, added: nat, updated: nat, rows: seq<RowStatus>)

  /**
   * The loop of `import_groups` over the first `i` groups: an unselected
   * group writes nothing and is shown as merged; a selected one is imported
   * from the state the groups before it left and shown as it was stored.
   */
  function ImportGroupsUpTo(groups: seq<Record>, ldapGroups: seq<Record>, i: nat, selected: seq<Value>, table: string,
                            env: GroupEnv, st: StoreState, fuel: nat): GroupsImported
    requires i <= |groups| && i <= |ldapGroups|
    decreases i, 1
  {
    if i == 0 then GroupsImported([], 0, 0, []) else GroupOne(groups, ldapGroups, i, selected, table, env, st, fuel)
  }

  /** Group `i - 1` handled after the groups before it, against the store they left. */
  function GroupOne(groups: seq<Record>, ldapGroups: seq<Record>, i: nat, selected: seq<Value>, table: string,
                    env: GroupEnv, st: StoreState, fuel: nat): GroupsImported
    requires 0 < i <= |groups| && i <= |ldapGroups|
    decreases i, 0
  {
    var prev := ImportGroupsUpTo(groups, ldapGroups, i - 1, selected, table, env, st, fuel);
    if !IsSelectedGroup(selected, groups[i - 1]) then
      GroupsImported(prev.writes, prev.added, prev.updated, prev.rows + [Classify(groups[i - 1])])
    else
      var g := SelectedGroupImport(table, groups[i - 1], ldapGroups[i - 1], env, Replay(st, prev.writes), fuel);
      GroupsImported(prev.writes + g.writes, prev.added + (if g.added then 1 else 0),
                     prev.updated + (if g.updated then 1 else 0), prev.rows + [Classify(g.shown)])
  }

  /**
   * A selected group is counted as added exactly when it is new, as updated
   * only when it is not, and its row is never "not imported" (and
   * "imported" when it was restored).
   */
  lemma SelectedGroupShown(table: string, selected: seq<Value>, group: Record, ldapGroup: Record, env: GroupEnv,
                           st: StoreState, fuel: nat)
    requires IsSelectedGroup(selected, group)
    ensures var g := SelectedGroupImport(table, group, ldapGroup, env, st, fuel);
            && ShownAs(selected, group, Classify(g.shown))
            && (g.added <==> IsNew(group))
            && (g.updated ==> !IsNew(group))
  {
    var g := SelectedGroupImport(table, group, ldapGroup, env, st, fuel);
    var base := group - {ParentGroupField};
    if IsNew(group) {
      AddedRowIsListed(base, st.lastUid + 1);
    } else {
      assert g.shown == base[DeletedField := Int(0)];
      assert Get(g.shown, UidField) == Get(group, UidField);
      assert Get(g.shown, DeletedField) == Int(0);
    }
  }

  /**
   * Over the first `i` groups: one row each, shown as `ShownAs` says; the
   * new selected groups counted as added, at most the other selected ones
   * as updated; and no write at all when no group is selected.
   */
  lemma {:induction false} ImportGroupsUpToCounts(groups: seq<Record>, ldapGroups: seq<Record>, i: nat,
                                                  selected: seq<Value>, table: string, env: GroupEnv, st: StoreState,
                                                  fuel: nat)
    requires i <= |groups| && i <= |ldapGroups|
    ensures var r := ImportGroupsUpTo(groups, ldapGroups, i, selected, table, env, st, fuel);
            && |r.rows| == i
            && r.added == CountNew(groups[..i], selected)
            && r.updated <= CountExisting(groups[..i], selected)
            && (forall j :: 0 <= j < i ==> ShownAs(selected, groups[j], r.rows[j]))
            && (CountNew(groups[..i], selected) + CountExisting(groups[..i], selected) == 0 ==> r.writes == [])
  {
    if i > 0 {
      var prev := ImportGroupsUpTo(groups, ldapGroups, i - 1, selected, table, env, st, fuel);
      ImportGroupsUpToCounts(groups, ldapGroups, i - 1, selected, table, env, st, fuel);
      CountStep(groups, i - 1, selected);
      if IsSelectedGroup(selected, groups[i - 1]) {
        var g := SelectedGroupImport(table, groups[i - 1], ldapGroups[i - 1], env, Replay(st, prev.writes), fuel);
        SelectedGroupShown(table, selected, groups[i - 1], ldapGroups[i - 1], env, Replay(st, prev.writes), fuel);
        ShownAsExtend(selected, groups, prev.rows, Classify(g.shown));
      } else {
        ShownAsExtend(selected, groups, prev.rows, Classify(groups[i - 1]));
      }
    }
  }

  /**
   * The log, state, counters and rows after `import_groups` handled the
   * first `i` listed groups, from `log0` and `st0`.
   */
  ghost predicate GroupsSoFar(groups: seq<Record>, ldapGroups: seq<Record>, i: nat, selected: seq<Value>, table: string,
                              env: GroupEnv, st0: StoreState, fuel: nat, log0: seq<Call>, log: seq<Call>,
                              st: StoreState, added: nat, updated: nat, rows: seq<RowStatus>)
    requires i <= |groups| && i <= |ldapGroups|
  {
    var r := ImportGroupsUpTo(groups, ldapGroups, i, selected, table, env, st0, fuel);
    Follows(log0, st0, log, st, r.writes) && added == r.added && updated == r.updated && rows == r.rows
  }

  /** Handling the `i`-th listed group, from the state the others left, extends `GroupsSoFar` by one. */
  lemma GroupsOneMore(groups: seq<Record>, ldapGroups: seq<Record>, i: nat, selected: seq<Value>, table: string,
                      env: GroupEnv, st0: StoreState, fuel: nat, log0: seq<Call>, log1: seq<Call>, st1: StoreState,
                      added1: nat, updated1: nat, rows1: seq<RowStatus>, log2: seq<Call>, st2: StoreState,
                      added2: nat, updated2: nat, rows2: seq<RowStatus>)
    requires i < |groups| && i < |ldapGroups|
    requires GroupsSoFar(groups, ldapGroups, i, selected, table, env, st0, fuel, log0, log1, st1, added1, updated1,
                         rows1)
    requires !IsSelectedGroup(selected, groups[i]) ==>
               && log2 == log1 && st2 == st1 && added2 == added1 && updated2 == updated1
               && rows2 == rows1 + [Classify(groups[i])]
    requires IsSelectedGroup(selected, groups[i]) ==>
               var g := SelectedGroupImport(table, groups[i], ldapGroups[i], env, st1, fuel);
               && Follows(log1, st1, log2, st2, g.writes)
               && added2 == added1 + (if g.added then 1 else 0)
               && updated2 == updated1 + (if g.updated then 1 else 0)
               && rows2 == rows1 + [Classify(g.shown)]
    ensures GroupsSoFar(groups, ldapGroups, i + 1, selected, table, env, st0, fuel, log0, log2, st2, added2, updated2,
                        rows2)
  {
    var prev := ImportGroupsUpTo(groups, ldapGroups, i, selected, table, env, st0, fuel);
    if IsSelectedGroup(selected, groups[i]) {
      var g := SelectedGroupImport(table, groups[i], ldapGroups[i], env, st1, fuel);
      FollowsAppend(log0, st0, log1, st1, prev.writes, log2, st2, g.writes);
    }
  }

  /** The record shown (and written, when selected) for a listed group. */
  datatype UserListing = UserListing(numberOfUsers: nat, rows: seq<RowStatus>, usersAdded: nat, usersUpdated: nat)

  // ---------------------------------------------------------------------
  // User paging

  /** The pages up to, not including, the first empty one. */
  function NonEmptyPrefix(pages: seq<seq<Record>>): (r: seq<seq<Record>>)
    ensures r <= pages
    ensures forall j :: 0 <= j < |r| ==> |r[j]| > 0
    ensures |r| < |pages| ==> |pages[|r|]| == 0
  {
    if pages == [] || |pages[0]| == 0 then [] else [pages[0]] + NonEmptyPrefix(pages[1..])
  }

  /** The number of entries on the pages. */
  function TotalSize(pages: seq<seq<Record>>): nat {
    if pages == [] then 0 else TotalSize(pages[..|pages| - 1]) + |pages[|pages| - 1]|
  }

  /** No page of `pages` is empty. */
  predicate AllNonEmpty(pages: seq<seq<Record>>) {
    pages == [] || (AllNonEmpty(pages[..|pages| - 1]) && |pages[|pages| - 1]| > 0)
  }

  lemma {:induction false} AllNonEmptyMeans(pages: seq<seq<Record>>)
    ensures AllNonEmpty(pages) <==> forall j :: 0 <= j < |pages| ==> |pages[j]| > 0
  {
    if pages != [] {
      var n := |pages| - 1;
      AllNonEmptyMeans(pages[..n]);
      assert forall j :: 0 <= j < n ==> pages[..n][j] == pages[j];
    }
  }

  /** Walking the pages until one is empty covers exactly the non-empty prefix. */
  lemma {:induction false} NonEmptyPrefixIsWalk(pages: seq<seq<Record>>, d: nat)
    requires d <= |pages|
    requires forall j :: 0 <= j < d ==> |pages[j]| > 0
    requires d == |pages| || |pages[d]| == 0
    ensures NonEmptyPrefix(pages) == pages[..d]
  {
    if d > 0 {
      NonEmptyPrefixIsWalk(pages[1..], d - 1);
      assert [pages[0]] + pages[1..][..d - 1] == pages[..d];
    }
  }

  /** The user rows listed for a page: each entry merged with its local record. */
  datatype ListingEnv = ListingEnv(
    /** `fetchTypo3Users`: the local record for every entry, a fresh one where none exists */
    localUsers: seq<Record> -> seq<Record>,
    /** `tx_igldapssoauth_auth::merge` with the users mapping */
    merge: (Record, Record) -> Record)

  function MergedPage(page: seq<Record>, listing: ListingEnv): seq<Record> {
    MergedEntries(page, listing.localUsers(page), listing.merge)
  }

  /** The users whose DN is strictly in the selected list, in order. */
  function Chosen(users: seq<Record>, selected: seq<Value>): (r: seq<Record>)
    ensures forall u :: u in r ==> u in users && Get(u, DnField) in selected
    ensures forall u :: u in users && Get(u, DnField) in selected ==> u in r
  {
    if users == [] then []
    else
      var last := users[|users| - 1];
      Chosen(users[..|users| - 1], selected) + if Get(last, DnField) in selected then [last] else []
  }

  /** Choosing from one more user. */
  lemma ChosenStep(users: seq<Record>, i: nat, selected: seq<Value>)
    requires i < |users|
    ensures Chosen(users[..i + 1], selected)
         == Chosen(users[..i], selected) + if Get(users[i], DnField) in selected then [users[i]] else []
  {
    assert users[..i + 1][..i] == users[..i];
  }

  /** Recording user `i` when it is chosen extends the users recorded so far. */
  lemma ChosenOneMore(users: seq<Record>, i: nat, selected: seq<Value>, before: seq<Record>, now: seq<Record>,
                      after: seq<Record>)
    requires i < |users|
    requires now == before + Chosen(users[..i], selected)
    requires after == now + if Get(users[i], DnField) in selected then [users[i]] else []
    ensures after == before + Chosen(users[..i + 1], selected)
  {
    ChosenStep(users, i, selected);
    assert before + Chosen(users[..i], selected) + (if Get(users[i], DnField) in selected then [users[i]] else [])
        == before + (Chosen(users[..i], selected) + if Get(users[i], DnField) in selected then [users[i]] else []);
  }

  /** Only users whose DN is strictly in the selected list are imported. */
  lemma {:induction false} ChosenAllSelected(pages: seq<seq<Record>>, selected: seq<Value>, listing: ListingEnv)
    ensures forall u :: u in ChosenAll(pages, selected, listing) ==> Get(u, DnField) in selected
  {
    if pages != [] {
      ChosenAllSelected(pages[..|pages| - 1], selected, listing);
    }
  }

  /** The users imported from a sequence of pages. */
  function ChosenAll(pages: seq<seq<Record>>, selected: seq<Value>, listing: ListingEnv): seq<Record> {
    if pages == [] then []
    else ChosenAll(pages[..|pages| - 1], selected, listing) + Chosen(MergedPage(pages[|pages| - 1], listing), selected)
  }

  /** The walk stopped at an empty page or past the last: it covered the non-empty prefix. */
  lemma WalkEnds(pages: seq<seq<Record>>, d: nat)
    requires d <= |pages| && AllNonEmpty(pages[..d])
    requires d == |pages| || |pages[d]| == 0
    ensures NonEmptyPrefix(pages) == pages[..d]
  {
    AllNonEmptyMeans(pages[..d]);
    assert forall j :: 0 <= j < d ==> pages[..d][j] == pages[j];
    NonEmptyPrefixIsWalk(pages, d);
  }

  /** Listing one more page. */
  lemma PageStep(pages: seq<seq<Record>>, d: nat, selected: seq<Value>, listing: ListingEnv)
    requires d < |pages|
    ensures TotalSize(pages[..d + 1]) == TotalSize(pages[..d]) + |pages[d]|
    ensures ChosenAll(pages[..d + 1], selected, listing)
         == ChosenAll(pages[..d], selected, listing) + Chosen(MergedPage(pages[d], listing), selected)
    ensures AllNonEmpty(pages[..d]) && |pages[d]| > 0 ==> AllNonEmpty(pages[..d + 1])
  {
    assert pages[..d + 1][..d] == pages[..d];
  }

  /**
   * What listing users leaves behind: the row statuses so far, the writes
   * issued, what was added to the two counters, and the import exception
   * that ended the listing, if any.
   */
  datatype UsersListed = UsersListed(rows: seq<RowStatus>, writes: seq<Call>, added: nat, updated: nat,
                                     error: Option<ImportUsersException>)

  /** The import run for a chosen user: its merged record, its directory entry, the store it starts from. */
  type ImportFn = (Record, Record, StoreState) -> ImportStep

  /** `$importUtility->import($user, $ldapUser)` in the listing: restore behaviour "both", no disable field. */
  function ImportBoth(userTable: string, env: ImportEnvironment, password: Value): ImportFn {
    (user, ldapUser, st) => ImportOutcome(userTable, user, ldapUser, "both", "", env, password, st)
  }

  lemma ImportBothRuns(userTable: string, env: ImportEnvironment, password: Value, user: Record, ldapUser: Record,
                       st: StoreState)
    ensures ImportBoth(userTable, env, password)(user, ldapUser, st)
         == ImportOutcome(userTable, user, ldapUser, "both", "", env, password, st)
  {
  }

  /**
   * The first `n` users of a page listed against a store in state `st`:
   * a user whose DN is strictly in the selected list is imported by `step`
   * and shown as the import returns it; any other user is shown as merged.
   * The first import exception stops the listing.
   */
  function ListUsers(step: ImportFn, users: seq<Record>, ldapUsers: seq<Record>, n: nat, selected: seq<Value>,
                     st: StoreState): UsersListed
    requires n <= |users| && n <= |ldapUsers|
    decreases n, 1
  {
    if n == 0 then UsersListed([], [], 0, 0, None)
    else if ListUsers(step, users, ldapUsers, n - 1, selected, st).error.Some? then
      ListUsers(step, users, ldapUsers, n - 1, selected, st)
    else ListOne(step, users, ldapUsers, n, selected, st)
  }

  /** User `n - 1` listed after the users before it, against the store they left. */
  function ListOne(step: ImportFn, users: seq<Record>, ldapUsers: seq<Record>, n: nat, selected: seq<Value>,
                   st: StoreState): UsersListed
    requires 0 < n <= |users| && n <= |ldapUsers|
    decreases n, 0
  {
    var prev := ListUsers(step, users, ldapUsers, n - 1, selected, st);
    var user := users[n - 1];
    if Get(user, DnField) !in selected then
      UsersListed(prev.rows + [Classify(user)], prev.writes, prev.added, prev.updated, None)
    else
      var o := step(user, ldapUsers[n - 1], Replay(st, prev.writes));
      UsersListed(if o.result.Ok? then prev.rows + [Classify(o.result.value)] else prev.rows,
                  prev.writes + o.writes, prev.added + o.added, prev.updated + o.updated,
                  if o.result.Ok? then None else Some(o.result.error))
  }

  /**
   * The record shown for user `i`: what its import returned when it was
   * chosen (against the store the users before it left), the merged record
   * otherwise.
   */
  function ListedRecord(step: ImportFn, users: seq<Record>, ldapUsers: seq<Record>, i: nat, selected: seq<Value>,
                        st: StoreState): Record
    requires i < |users| && i < |ldapUsers|
  {
    if Get(users[i], DnField) !in selected then users[i]
    else
      var o := step(users[i], ldapUsers[i], Replay(st, ListUsers(step, users, ldapUsers, i, selected, st).writes));
      if o.result.Ok? then o.result.value else users[i]
  }

  /** Once an import has failed, listing further users changes nothing. */
  lemma {:induction false} ListUsersStops(step: ImportFn, users: seq<Record>, ldapUsers: seq<Record>, n: nat, m: nat,
                                          selected: seq<Value>, st: StoreState)
    requires n <= m <= |users| && m <= |ldapUsers|
    requires ListUsers(step, users, ldapUsers, n, selected, st).error.Some?
    ensures ListUsers(step, users, ldapUsers, m, selected, st) == ListUsers(step, users, ldapUsers, n, selected, st)
    decreases m
  {
    if m > n {
      ListUsersStops(step, users, ldapUsers, n, m - 1, selected, st);
    }
  }

  /** Without an exception there is one row per user; an exception leaves fewer. */
  lemma {:induction false} ListUsersLength(step: ImportFn, users: seq<Record>, ldapUsers: seq<Record>, n: nat,
                                           selected: seq<Value>, st: StoreState)
    requires n <= |users| && n <= |ldapUsers|
    ensures var l := ListUsers(step, users, ldapUsers, n, selected, st);
            |l.rows| <= n && (l.error.None? <==> |l.rows| == n)
    decreases n
  {
    if n > 0 {
      ListUsersLength(step, users, ldapUsers, n - 1, selected, st);
    }
  }

  /** Every row shows the record listed at its index; an unchosen user is shown as merged. */
  lemma {:induction false} ListUsersShows(step: ImportFn, users: seq<Record>, ldapUsers: seq<Record>, n: nat,
                                          selected: seq<Value>, st: StoreState)
    requires n <= |users| && n <= |ldapUsers|
    ensures var l := ListUsers(step, users, ldapUsers, n, selected, st);
            && (forall i :: 0 <= i < |l.rows| && i < n ==>
                  l.rows[i] == Classify(ListedRecord(step, users, ldapUsers, i, selected, st)))
            && (forall i :: 0 <= i < |l.rows| && i < n && Get(users[i], DnField) !in selected ==>
                  l.rows[i] == Classify(users[i]))
    decreases n
  {
    if n > 0 {
      ListUsersShows(step, users, ldapUsers, n - 1, selected, st);
      ListUsersLength(step, users, ldapUsers, n - 1, selected, st);
    }
  }

  /** An exception comes from the import of the chosen user right after the last row. */
  lemma {:induction false} ListUsersFails(step: ImportFn, users: seq<Record>, ldapUsers: seq<Record>, n: nat,
                                          selected: seq<Value>, st: StoreState)
    requires n <= |users| && n <= |ldapUsers|
    ensures var l := ListUsers(step, users, ldapUsers, n, selected, st);
            l.error.Some? ==>
              var k := |l.rows|;
              && k < n
              && Get(users[k], DnField) in selected
              && step(users[k], ldapUsers[k], Replay(st, ListUsers(step, users, ldapUsers, k, selected, st).writes)).result
                 == Err(l.error.value)
    decreases n
  {
    if n > 0 {
      ListUsersFails(step, users, ldapUsers, n - 1, selected, st);
      ListUsersLength(step, users, ldapUsers, n - 1, selected, st);
    }
  }

  /** Only chosen users write. */
  lemma {:induction false} ListUsersWrites(step: ImportFn, users: seq<Record>, ldapUsers: seq<Record>, n: nat,
                                           selected: seq<Value>, st: StoreState)
    requires n <= |users| && n <= |ldapUsers|
    ensures var l := ListUsers(step, users, ldapUsers, n, selected, st);
            Chosen(users[..n], selected) == [] ==> l.writes == [] && l.added == 0 && l.updated == 0 && l.error.None?
    decreases n
  {
    if n > 0 {
      ListUsersWrites(step, users, ldapUsers, n - 1, selected, st);
      ChosenStep(users, n - 1, selected);
    }
  }

  /** The users of every non-empty page listed in turn; the first import exception stops the listing. */
  function ListAllPages(step: ImportFn, pages: seq<seq<Record>>, selected: seq<Value>, listing: ListingEnv,
                        st: StoreState): UsersListed
    decreases |pages|
  {
    if pages == [] then UsersListed([], [], 0, 0, None)
    else
      var prev := ListAllPages(step, pages[..|pages| - 1], selected, listing, st);
      if prev.error.Some? then prev
      else
        var page := pages[|pages| - 1];
        var l := ListUsers(step, MergedPage(page, listing), page, |page|, selected, Replay(st, prev.writes));
        UsersListed(prev.rows + l.rows, prev.writes + l.writes, prev.added + l.added, prev.updated + l.updated, l.error)
  }

  /** Without an exception the pages give one row per listed entry. */
  lemma {:induction false} ListAllPagesRows(step: ImportFn, pages: seq<seq<Record>>, selected: seq<Value>,
                                            listing: ListingEnv, st: StoreState)
    ensures var l := ListAllPages(step, pages, selected, listing, st);
            l.error.None? ==> |l.rows| == TotalSize(pages)
    decreases |pages|
  {
    if pages != [] {
      var page := pages[|pages| - 1];
      var prev := ListAllPages(step, pages[..|pages| - 1], selected, listing, st);
      ListAllPagesRows(step, pages[..|pages| - 1], selected, listing, st);
      ListUsersLength(step, MergedPage(page, listing), page, |page|, selected, Replay(st, prev.writes));
    }
  }

  /** Once an import has failed, listing further pages changes nothing. */
  lemma {:induction false} ListAllPagesStops(step: ImportFn, pages: seq<seq<Record>>, more: seq<seq<Record>>,
                                             selected: seq<Value>, listing: ListingEnv, st: StoreState)
    requires pages <= more
    requires ListAllPages(step, pages, selected, listing, st).error.Some?
    ensures ListAllPages(step, more, selected, listing, st) == ListAllPages(step, pages, selected, listing, st)
    decreases |more|
  {
    if |more| > |pages| {
      assert pages <= more[..|more| - 1];
      ListAllPagesStops(step, pages, more[..|more| - 1], selected, listing, st);
    } else {
      assert more == pages;
    }
  }

  /** A run of non-empty pages at the front lies within the non-empty prefix. */
  lemma {:induction false} NonEmptyPrefixCovers(pages: seq<seq<Record>>, d: nat)
    requires d <= |pages|
    requires forall j :: 0 <= j < d ==> |pages[j]| > 0
    ensures pages[..d] <= NonEmptyPrefix(pages)
  {
    if d > 0 {
      NonEmptyPrefixCovers(pages[1..], d - 1);
      assert pages[..d] == [pages[0]] + pages[1..][..d - 1];
    }
  }

  /** The state the users listed so far have left: no exception, or the one that ended the page. */
  ghost predicate UsersSoFar(step: ImportFn, users: seq<Record>, ldapUsers: seq<Record>, i: nat, selected: seq<Value>,
                             st0: StoreState, log0: seq<Call>, added0: nat, updated0: nat,
                             log: seq<Call>, st: StoreState, added: nat, updated: nat,
                             rows: seq<RowStatus>, error: Option<ImportUsersException>)
    requires i <= |users| && i <= |ldapUsers|
  {
    var l := ListUsers(step, users, ldapUsers, i, selected, st0);
    && Follows(log0, st0, log, st, l.writes)
    && added == added0 + l.added && updated == updated0 + l.updated
    && rows == l.rows && error == l.error
  }

  /** Listing user `i`: shown as merged, or imported against the store left so far. */
  lemma UsersOneMore(step: ImportFn, users: seq<Record>, ldapUsers: seq<Record>, i: nat, selected: seq<Value>,
                     st0: StoreState, log0: seq<Call>, added0: nat, updated0: nat,
                     log1: seq<Call>, st1: StoreState, added1: nat, updated1: nat, rows1: seq<RowStatus>,
                     log2: seq<Call>, st2: StoreState, added2: nat, updated2: nat, rows2: seq<RowStatus>,
                     error2: Option<ImportUsersException>)
    requires i < |users| && i < |ldapUsers|
    requires UsersSoFar(step, users, ldapUsers, i, selected, st0, log0, added0, updated0,
                        log1, st1, added1, updated1, rows1, None)
    requires Get(users[i], DnField) !in selected ==>
               log2 == log1 && st2 == st1 && added2 == added1 && updated2 == updated1
               && rows2 == rows1 + [Classify(users[i])] && error2 == None
    requires Get(users[i], DnField) in selected ==>
               var o := step(users[i], ldapUsers[i], st1);
               && Follows(log1, st1, log2, st2, o.writes)
               && added2 == added1 + o.added && updated2 == updated1 + o.updated
               && rows2 == (if o.result.Ok? then rows1 + [Classify(o.result.value)] else rows1)
               && error2 == (if o.result.Ok? then None else Some(o.result.error))
    ensures UsersSoFar(step, users, ldapUsers, i + 1, selected, st0, log0, added0, updated0,
                       log2, st2, added2, updated2, rows2, error2)
  {
    var prev := ListUsers(step, users, ldapUsers, i, selected, st0);
    if Get(users[i], DnField) in selected {
      FollowsAppend(log0, st0, log1, st1, prev.writes, log2, st2, step(users[i], ldapUsers[i], st1).writes);
    } else {
      assert prev.writes + [] == prev.writes;
    }
  }

  /** An exception ends the page: the rest of its users are not listed. */
  lemma UsersStop(step: ImportFn, users: seq<Record>, ldapUsers: seq<Record>, i: nat, n: nat, selected: seq<Value>,
                  st0: StoreState, log0: seq<Call>, added0: nat, updated0: nat,
                  log: seq<Call>, st: StoreState, added: nat, updated: nat, rows: seq<RowStatus>,
                  error: Option<ImportUsersException>)
    requires i <= n <= |users| && n <= |ldapUsers| && error.Some?
    requires UsersSoFar(step, users, ldapUsers, i, selected, st0, log0, added0, updated0, log, st, added, updated, rows, error)
    ensures UsersSoFar(step, users, ldapUsers, n, selected, st0, log0, added0, updated0, log, st, added, updated, rows, error)
  {
    ListUsersStops(step, users, ldapUsers, i, n, selected, st0);
  }

  /** The state the pages listed so far have left: no exception, or the one that ended the listing. */
  ghost predicate PagesSoFar(step: ImportFn, pages: seq<seq<Record>>, d: nat, selected: seq<Value>, listing: ListingEnv,
                             st0: StoreState, log0: seq<Call>, log: seq<Call>, st: StoreState, added: nat, updated: nat,
                             rows: seq<RowStatus>, error: Option<ImportUsersException>)
    requires d <= |pages|
  {
    var l := ListAllPages(step, pages[..d], selected, listing, st0);
    && Follows(log0, st0, log, st, l.writes)
    && added == l.added && updated == l.updated && rows == l.rows && error == l.error
  }

  /** Listing page `d` against the store the earlier pages left. */
  lemma PagesOneMore(step: ImportFn, pages: seq<seq<Record>>, d: nat, selected: seq<Value>, listing: ListingEnv,
                     st0: StoreState, log0: seq<Call>,
                     log1: seq<Call>, st1: StoreState, added1: nat, updated1: nat, rows1: seq<RowStatus>,
                     log2: seq<Call>, st2: StoreState, added2: nat, updated2: nat, pageRows: seq<RowStatus>,
                     error2: Option<ImportUsersException>)
    requires d < |pages|
    requires PagesSoFar(step, pages, d, selected, listing, st0, log0, log1, st1, added1, updated1, rows1, None)
    requires UsersSoFar(step, MergedPage(pages[d], listing), pages[d], |pages[d]|, selected,
                        st1, log1, added1, updated1, log2, st2, added2, updated2, pageRows, error2)
    ensures PagesSoFar(step, pages, d + 1, selected, listing, st0, log0, log2, st2, added2, updated2, rows1 + pageRows, error2)
  {
    assert pages[..d + 1][..d] == pages[..d];
    var prev := ListAllPages(step, pages[..d], selected, listing, st0);
    var l := ListUsers(step, MergedPage(pages[d], listing), pages[d], |pages[d]|, selected, st1);
    FollowsAppend(log0, st0, log1, st1, prev.writes, log2, st2, l.writes);
  }

  /** What the walk over the first `d` pages has counted: the entries, the users imported and the counters. */
  ghost predicate PagesCounted(pages: seq<seq<Record>>, d: nat, selected: seq<Value>, listing: ListingEnv,
                               numberOfUsers: nat, imported: seq<Record>, added: nat, updated: nat)
  {
    && d <= |pages| && AllNonEmpty(pages[..d]) && numberOfUsers == TotalSize(pages[..d])
    && imported == ChosenAll(pages[..d], selected, listing) && added + updated <= |imported|
  }

  /** The listing stopped at page `d`, by an exception or at the end of the non-empty prefix: it covers that prefix. */
  lemma PagesEnd(step: ImportFn, pages: seq<seq<Record>>, d: nat, selected: seq<Value>, listing: ListingEnv,
                 st0: StoreState, log0: seq<Call>, log: seq<Call>, st: StoreState, added: nat, updated: nat,
                 rows: seq<RowStatus>, error: Option<ImportUsersException>)
    requires d <= |pages| && AllNonEmpty(pages[..d])
    requires error.None? ==> d == |pages| || |pages[d]| == 0
    requires PagesSoFar(step, pages, d, selected, listing, st0, log0, log, st, added, updated, rows, error)
    ensures var l := ListAllPages(step, NonEmptyPrefix(pages), selected, listing, st0);
            && Follows(log0, st0, log, st, l.writes)
            && added == l.added && updated == l.updated && rows == l.rows && error == l.error
  {
    AllNonEmptyMeans(pages[..d]);
    assert forall j :: 0 <= j < d ==> pages[..d][j] == pages[j];
    if error.Some? {
      NonEmptyPrefixCovers(pages, d);
      ListAllPagesStops(step, pages[..d], NonEmptyPrefix(pages), selected, listing, st0);
    } else {
      NonEmptyPrefixIsWalk(pages, d);
    }
  }

  // ---------------------------------------------------------------------
  // The module

  class AdminModule {
    /** The configuration record the module works with. */
    var ldapConfiguration: Option<ConfigurationRecord>

    constructor ()
      ensures ldapConfiguration == None
    {
      ldapConfiguration := None;
    }

    /**
     * The selection in `moduleContent`: without records nothing changes
     * (the module only asks for one to be created); otherwise the selection
     * is reset, then assigned in a loop over the records (only when there
     * are several), and falls back to the first record.
     */
    method ChooseConfiguration(records: seq<ConfigurationRecord>, config: Value)
      modifies this
      ensures |records| == 0 ==> ldapConfiguration == old(ldapConfiguration)
      ensures |records| > 0 ==> ldapConfiguration == Some(SelectedConfiguration(records, config))
    {
      if |records| == 0 {
        return;
      }
      ldapConfiguration := None;
      if |records| != 1 {
        for i := 0 to |records|
          invariant ldapConfiguration == match LastMatch(records[..i], config)
                                           case Some(k) => Some(records[k])
                                           case None => None
        {
          LastMatchStep(records, config, i);
          if Requests(config, records[i]) {
            ldapConfiguration := Some(records[i]);
          }
        }
        assert records[..|records|] == records;
      }
      if ldapConfiguration == None {
        ldapConfiguration := Some(records[0]);
      }
    }

    /**
     * The branch of `import_groups`' loop for a selected group: it loses
     * `parentGroup` and is added when it has no uid, or restored (`deleted`
     * 0) and updated otherwise, then linked into its parents. Returns the
     * record the row is shown for.
     */
    method ImportSelectedGroup(table: string, selected: seq<Value>, group: Record, ldapGroup: Record, env: GroupEnv,
                               store: Store, fuel: nat)
      returns (shown: Record, added: bool, updated: bool)
      requires IsSelectedGroup(selected, group)
      modifies store
      ensures ShownAs(selected, group, Classify(shown))
      ensures IsNew(group) ==> added && !updated
      ensures !IsNew(group) ==> !added && (updated <==> Addresses(old(store.Rows(table)), group))
      ensures old(store.log) < store.log
      ensures store.log[|old(store.log)|]
              == if IsNew(group) then Added(table, group - {ParentGroupField})
                 else Updated(table, (group - {ParentGroupField})[DeletedField := Int(0)], updated)
      ensures var g := SelectedGroupImport(table, group, ldapGroup, env, old(store.State()), fuel);
              && shown == g.shown && added == g.added && updated == g.updated
              && Follows(old(store.log), old(store.State()), store.log, store.State(), g.writes)
    {
      ghost var first := FirstGroupWrite(table, group, old(store.State()));
      shown, added, updated := group - {ParentGroupField}, false, false;
      if LooseEqualsInt(Get(shown, UidField), 0) {
        shown := store.Add(table, shown);
        AddedRowIsListed(shown - {UidField}, store.lastUid);
        assert shown == (shown - {UidField})[UidField := Int(store.lastUid)];
        added := true;
      } else {
        shown := shown[DeletedField := Int(0)];
        assert Get(shown, UidField) == Get(group, UidField);
        updated := store.Update(table, shown);
      }
      assert store.State() == Apply(old(store.State()), first);
      if env.parentField.Some? && Get(ldapGroup, env.parentField.value).Arr? {
        ghost var log1, st1 := store.log, store.State();
        ghost var parents := Get(ldapGroup, env.parentField.value).items;
        ghost var up := LinkParents(parents, |parents|, env.parentField.value, Get(shown, UidField), table, env, st1,
                                    fuel);
        var _ := SetParentGroup(Get(ldapGroup, env.parentField.value).items, env.parentField.value,
                                Get(shown, UidField), table, env, store, fuel);
        FollowsAppend(old(store.log), old(store.State()), log1, st1, [first], store.log, store.State(), up.writes);
      } else {
        assert [first] + [] == [first];
      }
    }

    /**
     * `import_groups`: every listed group is merged with its local record
     * and imported when selected (one more added for a new group, one more
     * updated for a successful update); every group gets a row status.
     */
    method ImportGroups(mode: string, selected: seq<Value>, env: GroupEnv, store: Store, fuel: nat)
      returns (groupsAdded: nat, groupsUpdated: nat, rows: seq<RowStatus>)
      modifies store
      ensures var groups := MergedEntries(GroupSearch(env), env.localGroups(GroupSearch(env)), env.merge);
              && |rows| == |groups|
              && groupsAdded == CountNew(groups, selected)
              && groupsUpdated <= CountExisting(groups, selected)
              && (forall i :: 0 <= i < |groups| ==> ShownAs(selected, groups[i], rows[i]))
              && (CountNew(groups, selected) + CountExisting(groups, selected) == 0 ==> unchanged(store))
      ensures old(store.log) <= store.log
      ensures var ldapGroups := GroupSearch(env);
              var groups := MergedEntries(ldapGroups, env.localGroups(ldapGroups), env.merge);
              var table := if mode == "be" then "be_groups" else "fe_groups";
              GroupsSoFar(groups, ldapGroups, |ldapGroups|, selected, table, env, old(store.State()), fuel,
                          old(store.log), store.log, store.State(), groupsAdded, groupsUpdated, rows)
    {
      var table := if mode == "be" then "be_groups" else "fe_groups";
      var ldapGroups := GroupSearch(env);
      var groups := MergedEntries(ldapGroups, env.localGroups(ldapGroups), env.merge);
      groupsAdded, groupsUpdated, rows := 0, 0, [];
      ghost var firstSelected := -1;
      for i := 0 to |ldapGroups|
        invariant GroupsSoFar(groups, ldapGroups, i, selected, table, env, old(store.State()), fuel, old(store.log),
                              store.log, store.State(), groupsAdded, groupsUpdated, rows)
        invariant firstSelected < 0 ==> unchanged(store)
        invariant firstSelected >= 0 ==> firstSelected < i && IsSelectedGroup(selected, groups[firstSelected])
      {
        if IsSelectedGroup(selected, groups[i]) && firstSelected < 0 {
          firstSelected := i;
        }
        groupsAdded, groupsUpdated, rows := ImportGroupAt(groups, ldapGroups, i, selected, table, env, store, fuel,
                                                          old(store.State()), old(store.log), groupsAdded,
                                                          groupsUpdated, rows);
      }
      ImportGroupsUpToCounts(groups, ldapGroups, |ldapGroups|, selected, table, env, old(store.State()), fuel);
      assert groups[..|ldapGroups|] == groups;
      if CountNew(groups, selected) + CountExisting(groups, selected) == 0 {
        CountsBounded(groups, selected);
      }
    }

    /**
     * One listed group of `import_groups`: a selected group is imported as
     * `ImportSelectedGroup` does it; any other is shown as merged, and
     * nothing is written.
     */
    method ImportListedGroup(table: string, selected: seq<Value>, group: Record, ldapGroup: Record, env: GroupEnv,
                             store: Store, fuel: nat)
      returns (shown: Record, added: bool, updated: bool)
      modifies store
      ensures !IsSelectedGroup(selected, group) ==> shown == group && !added && !updated && unchanged(store)
      ensures IsSelectedGroup(selected, group) ==>
                var g := SelectedGroupImport(table, group, ldapGroup, env, old(store.State()), fuel);
                && shown == g.shown && added == g.added && updated == g.updated
                && Follows(old(store.log), old(store.State()), store.log, store.State(), g.writes)
    {
      shown, added, updated := group, false, false;
      if IsSelectedGroup(selected, group) {
        shown, added, updated := ImportSelectedGroup(table, selected, group, ldapGroup, env, store, fuel);
      }
    }

    /**
     * One pass of `import_groups`' loop over the listed groups: group `i` is
     * handled from the state the groups before it left, its counts are
     * added and its row appended, which extends `GroupsSoFar` by one group.
     */
    method ImportGroupAt(groups: seq<Record>, ldapGroups: seq<Record>, i: nat, selected: seq<Value>, table: string,
                         env: GroupEnv, store: Store, fuel: nat, ghost st0: StoreState, ghost log0: seq<Call>,
                         added: nat, updated: nat, rows: seq<RowStatus>)
      returns (added': nat, updated': nat, rows': seq<RowStatus>)
      requires i < |groups| && i < |ldapGroups|
      requires GroupsSoFar(groups, ldapGroups, i, selected, table, env, st0, fuel, log0, store.log, store.State(),
                           added, updated, rows)
      modifies store
      ensures GroupsSoFar(groups, ldapGroups, i + 1, selected, table, env, st0, fuel, log0, store.log, store.State(),
                          added', updated', rows')
      ensures !IsSelectedGroup(selected, groups[i]) ==> unchanged(store)
    {
      ghost var log1, st1 := store.log, store.State();
      var shown, isNew, restored := ImportListedGroup(table, selected, groups[i], ldapGroups[i], env, store, fuel);
      added' := if isNew then added + 1 else added;
      updated' := if restored then updated + 1 else updated;
      rows' := rows + [Classify(shown)];
      GroupsOneMore(groups, ldapGroups, i, selected, table, env, st0, fuel, log0, log1, st1, added, updated, rows,
                    store.log, store.State(), added', updated', rows');
    }

    /**
     * Linking into an existing parent: the child is added to the parent's
     * list (or to the list carried over from the previous parent) and the
     * parent is updated with the joined list.
     */
    method LinkIntoParent(parent: Record, subGroupList: seq<string>, childUid: Value, table: string, store: Store)
      returns (list: seq<string>, success: bool)
      modifies store
      ensures list == NextSubGroupList(subGroupList, Get(parent, SubgroupField), childUid)
      ensures store.lastUid == old(store.lastUid)
      ensures store.log == old(store.log) + [Updated(table, parent[SubgroupField := Str(Implode(',', list))], success)]
      ensures LinksChild(parent[SubgroupField := Str(Implode(',', list))], childUid)
      ensures success == Addresses(old(store.Rows(table)), parent[SubgroupField := Str(Implode(',', list))])
      ensures store.tables
              == old(store.tables)[table := Overwrite(old(store.Rows(table)), parent[SubgroupField := Str(Implode(',', list))])]
      ensures Follows(old(store.log), old(store.State()), store.log, store.State(),
                      [Updated(table, parent[SubgroupField := Str(Implode(',', list))], success)])
    {
      list := NextSubGroupList(subGroupList, Get(parent, SubgroupField), childUid);
      NextSubGroupListShape(subGroupList, Get(parent, SubgroupField), childUid);
      var linked := parent[SubgroupField := Str(Implode(',', list))];
      assert Get(linked, SubgroupField) == Str(Implode(',', list));
      success := store.Update(table, linked);
    }

    /**
     * `setParentGroup`: for every parent DN, an existing parent gets the
     * child added to its `subgroup` list (see `NextSubGroupList`); a
     * missing one is looked up in the directory and created (see
     * `CreateParents`). Nothing detects cycles; `fuel` bounds the depth,
     * and `exhausted` reports that a recursion was cut.
     */
    method SetParentGroup(parents: seq<Value>, fieldParent: string, childUid: Value, table: string,
                          env: GroupEnv, store: Store, fuel: nat)
      returns (exhausted: bool)
      modifies store
      decreases fuel, 1
      ensures var l := LinkParents(parents, |parents|, fieldParent, childUid, table, env, old(store.State()), fuel);
              Follows(old(store.log), old(store.State()), store.log, store.State(), l.writes) && exhausted == l.exhausted
      ensures old(store.log) <= store.log
      ensures old(store.lastUid) <= store.lastUid
      ensures forall k :: |old(store.log)| <= k < |store.log| ==>
                ParentWrite(store.log[k], table, childUid, old(store.lastUid))
      ensures exhausted ==> old(store.lastUid) < store.lastUid
    {
      exhausted := false;
      var subGroupList: seq<string> := [];
      for p := 0 to |parents|
        invariant var l := LinkParents(parents, p, fieldParent, childUid, table, env, old(store.State()), fuel);
                  && Follows(old(store.log), old(store.State()), store.log, store.State(), l.writes)
                  && subGroupList == l.list && exhausted == l.exhausted
      {
        ghost var prev := LinkParents(parents, p, fieldParent, childUid, table, env, old(store.State()), fuel);
        ghost var log1, st1 := store.log, store.State();
        var parentDn := StringOf(parents[p]);
        var existing := store.Fetch(table, parentDn);
        if |existing| > 0 {
          LinkExistingStep(parents, p, fieldParent, childUid, table, env, old(store.State()), fuel);
          var success;
          subGroupList, success := LinkIntoParent(existing[0], subGroupList, childUid, table, store);
          ghost var c := Updated(table, existing[0][SubgroupField := Str(Implode(',', subGroupList))], success);
          FollowsAppend(old(store.log), old(store.State()), log1, st1, prev.writes, store.log, store.State(), [c]);
        } else {
          LinkMissingStep(parents, p, fieldParent, childUid, table, env, old(store.State()), fuel);
          ghost var found := env.search(ParentFilter(env, parentDn));
          ghost var created := CreateGroups(found, |found|, fieldParent, childUid, table, env, st1, fuel);
          var cut := CreateParents(env.search(ParentFilter(env, parentDn)), fieldParent, childUid, table, env,
                                   store, fuel);
          FollowsAppend(old(store.log), old(store.State()), log1, st1, prev.writes, store.log, store.State(),
                        created.writes);
          exhausted := exhausted || cut;
        }
      }
      LinkParentsOutcome(parents, fieldParent, childUid, table, env, old(store.State()), fuel);
      LoggedParentWrites(old(store.log), store.log,
                         LinkParents(parents, |parents|, fieldParent, childUid, table, env, old(store.State()), fuel).writes,
                         table, childUid, old(store.lastUid));
    }

    /**
     * The missing-parent branch of `setParentGroup`: every group the
     * secondary search finds is created in turn by `CreateParent`.
     */
    method CreateParents(ldapGroups: seq<Record>, fieldParent: string, childUid: Value, table: string,
                         env: GroupEnv, store: Store, fuel: nat)
      returns (exhausted: bool)
      modifies store
      decreases fuel, 0
      ensures var l := CreateGroups(ldapGroups, |ldapGroups|, fieldParent, childUid, table, env, old(store.State()), fuel);
              Follows(old(store.log), old(store.State()), store.log, store.State(), l.writes) && exhausted == l.exhausted
    {
      exhausted := false;
      for j := 0 to |ldapGroups|
        invariant CreatedSoFar(ldapGroups, j, fieldParent, childUid, table, env, old(store.State()), fuel,
                               old(store.log), store.log, store.State(), exhausted)
      {
        ghost var log1, st1 := store.log, store.State();
        var merged := MergedEntries(ldapGroups, env.localGroups(ldapGroups), env.merge)[j];
        var cut := CreateParent(merged, Get(ldapGroups[j], fieldParent), fieldParent, childUid, table, env, store, fuel);
        CreatedOneMore(ldapGroups, j, fieldParent, childUid, table, env, old(store.State()), fuel, old(store.log),
                       log1, st1, exhausted, store.log, store.State(), cut);
        exhausted := exhausted || cut;
      }
    }

    /**
     * One group found for a missing parent: merged with its local record,
     * it loses `parentGroup`, gets `subgroup` = the child and is added;
     * then, when its entry lists parents, it is linked into them under the
     * uid it was given.
     */
    method CreateParent(merged: Record, parentsField: Value, fieldParent: string, childUid: Value, table: string,
                        env: GroupEnv, store: Store, fuel: nat)
      returns (exhausted: bool)
      modifies store
      decreases fuel, 0, 0
      ensures var one := CreateOne(merged, parentsField, fieldParent, childUid, table, env, old(store.State()), fuel);
              Follows(old(store.log), old(store.State()), store.log, store.State(), one.writes)
              && exhausted == one.exhausted
    {
      exhausted := false;
      ghost var st0 := store.State();
      var group := NewParentRecord(merged, childUid);
      ghost var add := Added(table, group);
      group := store.Add(table, group);
      ghost var uid := Int(st0.lastUid + 1);
      assert Get(group, UidField) == uid;
      if parentsField.Arr? {
        if fuel == 0 {
          exhausted := true;
        } else {
          ghost var log1, st1 := store.log, store.State();
          ghost var up := LinkParents(parentsField.items, |parentsField.items|, fieldParent, uid, table, env,
                                      Apply(st0, add), fuel - 1);
          exhausted := SetParentGroup(parentsField.items, fieldParent, Get(group, UidField), table, env, store,
                                      fuel - 1);
          FollowsAppend(old(store.log), st0, log1, st1, [add], store.log, store.State(), up.writes);
          assert CreateOne(merged, parentsField, fieldParent, childUid, table, env, st0, fuel)
              == Linking([add] + up.writes, [], up.exhausted);
        }
      }
    }

    /**
     * The body of the `foreach` over one page of `importUsers`: a user whose
     * DN is strictly in the selected list is imported, and shown as the
     * import returns it; any other user is shown as merged.
     */
    method ListUser(util: UserImportUtility, user: Record, ldapUser: Record, selected: seq<Value>,
                    env: ImportEnvironment, store: Store, password: Value)
      returns (shown: Record, error: Option<ImportUsersException>)
      modifies util`usersAdded, util`usersUpdated, util`imported, store
      ensures util.imported == old(util.imported) + if Get(user, DnField) in selected then [user] else []
      ensures Get(user, DnField) !in selected ==>
                && shown == user && error == None
                && store.log == old(store.log) && store.State() == old(store.State())
                && util.usersAdded == old(util.usersAdded) && util.usersUpdated == old(util.usersUpdated)
      ensures Get(user, DnField) in selected ==>
                var o := ImportOutcome(util.userTable, user, ldapUser, "both", "", env, password, old(store.State()));
                && Follows(old(store.log), old(store.State()), store.log, store.State(), o.writes)
                && util.usersAdded == old(util.usersAdded) + o.added && util.usersUpdated == old(util.usersUpdated) + o.updated
                && (o.result.Ok? ==> shown == o.result.value && error == None)
                && (o.result.Err? ==> error == Some(o.result.error))
                && util.usersAdded + util.usersUpdated <= old(util.usersAdded + util.usersUpdated) + 1
    {
      shown, error := user, None;
      if Get(user, DnField) in selected {
        var imported := util.Import(user, ldapUser, "both", "", env, store, password);
        if imported.Err? {
          return shown, Some(imported.error);
        }
        shown := imported.value;
      }
    }

    /**
     * The `foreach` over one page of `importUsers`: every user is merged
     * with its local record and listed (see `ListUser`). An import
     * exception ends the page.
     */
    method ImportPage(util: UserImportUtility, page: seq<Record>, selected: seq<Value>, listing: ListingEnv,
                      env: ImportEnvironment, store: Store, password: Value)
      returns (rows: seq<RowStatus>, error: Option<ImportUsersException>)
      modifies util`usersAdded, util`usersUpdated, util`imported, store
      ensures UsersSoFar(ImportBoth(util.userTable, env, password), MergedPage(page, listing), page, |page|, selected,
                         old(store.State()), old(store.log), old(util.usersAdded), old(util.usersUpdated),
                         store.log, store.State(), util.usersAdded, util.usersUpdated, rows, error)
      ensures error.None? ==> |rows| == |page|
      ensures error.None? ==> util.imported == old(util.imported) + Chosen(MergedPage(page, listing), selected)
      ensures forall u :: u in util.imported ==> u in old(util.imported) || Get(u, DnField) in selected
      ensures util.usersAdded + util.usersUpdated - old(util.usersAdded + util.usersUpdated)
              <= |util.imported| - |old(util.imported)|
    {
      ghost var step := ImportBoth(util.userTable, env, password);
      var users := MergedPage(page, listing);
      rows, error := [], None;
      for i := 0 to |page|
        invariant UsersSoFar(step, users, page, i, selected, old(store.State()), old(store.log), old(util.usersAdded),
                             old(util.usersUpdated), store.log, store.State(), util.usersAdded, util.usersUpdated, rows, None)
        invariant util.imported == old(util.imported) + Chosen(users[..i], selected)
        invariant |rows| == i
        invariant forall u :: u in util.imported ==> u in old(util.imported) || Get(u, DnField) in selected
        invariant util.usersAdded + util.usersUpdated - old(util.usersAdded + util.usersUpdated)
                  <= |util.imported| - |old(util.imported)|
      {
        ghost var log1, st1, added1, updated1, rows1 := store.log, store.State(), util.usersAdded, util.usersUpdated, rows;
        ghost var imported1 := util.imported;
        var shown, failed := ListUser(util, users[i], page[i], selected, env, store, password);
        ChosenOneMore(users, i, selected, old(util.imported), imported1, util.imported);
        ImportBothRuns(util.userTable, env, password, users[i], page[i], st1);
        if failed.Some? {
          UsersOneMore(step, users, page, i, selected, old(store.State()), old(store.log), old(util.usersAdded),
                       old(util.usersUpdated), log1, st1, added1, updated1, rows1,
                       store.log, store.State(), util.usersAdded, util.usersUpdated, rows, failed);
          UsersStop(step, users, page, i + 1, |page|, selected, old(store.State()), old(store.log), old(util.usersAdded),
                    old(util.usersUpdated), store.log, store.State(), util.usersAdded, util.usersUpdated, rows, failed);
          return rows, failed;
        }
        rows := rows + [Classify(shown)];
        UsersOneMore(step, users, page, i, selected, old(store.State()), old(store.log), old(util.usersAdded),
                     old(util.usersUpdated), log1, st1, added1, updated1, rows1,
                     store.log, store.State(), util.usersAdded, util.usersUpdated, rows, None);
      }
      assert users[..|page|] == users;
    }

    /**
     * `$importUtility->hasMoreLdapUsers() ? $importUtility->fetchLdapUsers(TRUE) : array()`:
     * the next page while the directory reports more, else nothing.
     */
    method NextPage(util: UserImportUtility, ldap: Ldap) returns (page: seq<Record>)
      requires util.CanSearch(ldap)
      modifies ldap
      ensures ldap.pages == old(ldap.pages)
      ensures old(ldap.cursor) < |ldap.pages| ==>
                && page == ldap.pages[old(ldap.cursor)] && ldap.cursor == old(ldap.cursor) + 1
                && ldap.requests == old(ldap.requests) + [util.UsersSearch(true)]
      ensures old(ldap.cursor) >= |ldap.pages| ==>
                page == [] && ldap.cursor == old(ldap.cursor) && ldap.requests == old(ldap.requests)
    {
      var more := util.HasMoreLdapUsers(ldap);
      if more {
        page := util.FetchLdapUsers(true, ldap);
      } else {
        page := [];
      }
    }

    /**
     * The `do ... while` of `importUsers`, entered with the first page,
     * which is not empty: every page is listed (see `ImportPage`) and
     * counted, the next page is fetched only while the directory reports
     * more, and the loop ends at the first empty page. An import exception
     * ends the listing.
     */
    method ListPages(util: UserImportUtility, ldap: Ldap, first: seq<Record>, selected: seq<Value>,
                     listing: ListingEnv, env: ImportEnvironment, store: Store, password: Value)
      returns (outcome: Result<(nat, seq<RowStatus>), ImportUsersException>)
      requires util.CanSearch(ldap)
      requires 0 < |ldap.pages| && first == ldap.pages[0] && first != [] && ldap.cursor == 1
      requires util.imported == [] && util.usersAdded == 0 && util.usersUpdated == 0
      modifies ldap, util`usersAdded, util`usersUpdated, util`imported, store
      ensures ldap.pages == old(ldap.pages)
      ensures var l := ListAllPages(ImportBoth(util.userTable, env, password), NonEmptyPrefix(ldap.pages), selected,
                                    listing, old(store.State()));
              && Follows(old(store.log), old(store.State()), store.log, store.State(), l.writes)
              && util.usersAdded == l.added && util.usersUpdated == l.updated
              && (outcome.Ok? <==> l.error.None?)
              && (outcome.Ok? ==> outcome.value.1 == l.rows)
              && (outcome.Err? ==> l.error == Some(outcome.error))
      ensures forall u :: u in util.imported ==> Get(u, DnField) in selected
      ensures util.usersAdded + util.usersUpdated <= |util.imported|
      ensures outcome.Ok? ==>
                && outcome.value.0 == TotalSize(NonEmptyPrefix(ldap.pages))
                && |outcome.value.1| == outcome.value.0
                && util.imported == ChosenAll(NonEmptyPrefix(ldap.pages), selected, listing)
    {
      ghost var step := ImportBoth(util.userTable, env, password);
      ghost var pages := ldap.pages;
      var ldapUsers := first;
      var numberOfUsers: nat := 0;
      var rows: seq<RowStatus> := [];
      ghost var done := 0;
      while |ldapUsers| > 0
        invariant ldap.pages == pages
        invariant done <= |pages|
        invariant |ldapUsers| > 0 ==> done < |pages| && ldapUsers == pages[done] && ldap.cursor == done + 1
        invariant |ldapUsers| == 0 ==> done == |pages| || |pages[done]| == 0
        invariant PagesCounted(pages, done, selected, listing, numberOfUsers, util.imported, util.usersAdded, util.usersUpdated)
        invariant PagesSoFar(step, pages, done, selected, listing, old(store.State()), old(store.log),
                             store.log, store.State(), util.usersAdded, util.usersUpdated, rows, None)
        decreases |pages| - done
      {
        ghost var log1, st1, added1, updated1 := store.log, store.State(), util.usersAdded, util.usersUpdated;
        numberOfUsers := numberOfUsers + |ldapUsers|;
        var pageRows, error := ImportPage(util, ldapUsers, selected, listing, env, store, password);
        PagesOneMore(step, pages, done, selected, listing, old(store.State()), old(store.log),
                     log1, st1, added1, updated1, rows, store.log, store.State(), util.usersAdded, util.usersUpdated,
                     pageRows, error);
        if error.Some? {
          ChosenAllSelected(pages[..done], selected, listing);
          PageStep(pages, done, selected, listing);
          PagesEnd(step, pages, done + 1, selected, listing, old(store.State()), old(store.log),
                   store.log, store.State(), util.usersAdded, util.usersUpdated, rows + pageRows, error);
          return Err(error.value);
        }
        rows := rows + pageRows;
        PageStep(pages, done, selected, listing);
        done := done + 1;
        ldapUsers := NextPage(util, ldap);
      }
      WalkEnds(pages, done);
      ListAllPagesRows(step, pages[..done], selected, listing, old(store.State()));
      PagesEnd(step, pages, done, selected, listing, old(store.State()), old(store.log),
               store.log, store.State(), util.usersAdded, util.usersUpdated, rows, None);
      ChosenAllSelected(pages[..done], selected, listing);
      return Ok((numberOfUsers, rows));
    }

    /**
     * `importUsers`: the first page is fetched; without users nothing is
     * listed, otherwise the pages are listed (see `ListPages`). The counters
     * are read from the importer at the end.
     */
    method ImportUsers(mode: string, frontend: Configuration, backend: Configuration, ldap: Ldap,
                       selected: seq<Value>, listing: ListingEnv, env: ImportEnvironment, store: Store,
                       password: Value)
      returns (util: UserImportUtility, outcome: Result<UserListing, ImportUsersException>)
      modifies ldap, store
      ensures fresh(util)
      ensures ldap.pages == old(ldap.pages)
      ensures var listed := if util.CanSearch(ldap) then NonEmptyPrefix(old(ldap.pages)) else [];
              var l := ListAllPages(ImportBoth(util.userTable, env, password), listed, selected, listing,
                                    old(store.State()));
              && Follows(old(store.log), old(store.State()), store.log, store.State(), l.writes)
              && (outcome.Ok? <==> l.error.None?)
              && (outcome.Ok? ==> outcome.value.rows == l.rows && outcome.value.usersAdded == l.added
                                  && outcome.value.usersUpdated == l.updated)
              && (outcome.Err? ==> l.error == Some(outcome.error))
      ensures forall u :: u in util.imported ==> Get(u, DnField) in selected
      ensures util.usersAdded + util.usersUpdated <= |util.imported|
      ensures outcome.Ok? ==>
                var listed := if util.CanSearch(ldap) then NonEmptyPrefix(old(ldap.pages)) else [];
                && outcome.value.numberOfUsers == TotalSize(listed)
                && |outcome.value.rows| == outcome.value.numberOfUsers
                && util.imported == ChosenAll(listed, selected, listing)
                && outcome.value.usersAdded == util.GetUsersAdded()
                && outcome.value.usersUpdated == util.GetUsersUpdated()
    {
      util := new UserImportUtility(mode, frontend, backend);
      var ldapUsers := util.FetchLdapUsers(false, ldap);
      if |ldapUsers| == 0 {
        if util.CanSearch(ldap) {
          NonEmptyPrefixIsWalk(ldap.pages, 0);
        }
        return util, Ok(UserListing(0, [], util.GetUsersAdded(), util.GetUsersUpdated()));
      }
      var listed := ListPages(util, ldap, ldapUsers, selected, listing, env, store, password);
      match listed
      case Err(e) =>
        return util, Err(e);
      case Ok((numberOfUsers, rows)) =>
        return util, Ok(UserListing(numberOfUsers, rows, util.GetUsersAdded(), util.GetUsersUpdated()));
    }
  }
}
