/**
 * The SQLite store behind the chat server: usage logs, dialogs, model
 * metadata, prompt presets, the per-IP trial counter and the user table.
 * Each table is a `Table` in rowid order; the unique indexes of the schema
 * are invariants of `Database.Valid`. The query functions state what each
 * statement selects or leaves behind; the `Database` methods perform the
 * statements on the store and are proved against them.
 */
module SqliteLog {
  import opened Common
  import opened Tables

  datatype Log = Log(username: string, modelname: string, usage: int, requestText: string)

  /** A saved conversation; `startDate` is a day number (the DateField holds a calendar date). */
  datatype Dialog = Dialog(username: string, chattype: string, modelname: string,
                           dialogName: string, startDate: int, context: string)

  /** The unique index of Dialog: (username, chattype, dialog_name). */
  datatype DialogKey = DialogKey(username: string, chattype: string, dialogName: string)

  function KeyOfDialog(d: Dialog): DialogKey {
    DialogKey(d.username, d.chattype, d.dialogName)
  }

  datatype ModelMeta = ModelMeta(modelName: string, modelDesc: string, recommend: bool, statusValid: bool)

  function NameOfModel(m: ModelMeta): string { m.modelName }

  datatype SystemPrompt = SystemPrompt(roleName: string, roleGroup: string, roleDesc: string,
                                       roleContent: string, statusValid: bool)

  /** The unique index of SystemPrompt: (role_name, role_group). */
  function KeyOfPrompt(p: SystemPrompt): (string, string) { (p.roleName, p.roleGroup) }

  /** The trial counter of one client address. */
  datatype TestLimit = TestLimit(userIp: string, userCount: int, limit: int)

  function IpOf(l: TestLimit): string { l.userIp }

  /** A stored account; times are instants in seconds, the password only as salted hash. */
  datatype User = User(username: string, passwordHash: string, salt: string, apiKey: Option<string>,
                       role: string, isActive: bool, createdAt: int, updatedAt: int)

  function NameOfUser(u: User): string { u.username }

  // ---------------------------------------------------------------------------
  // The trial counter (TestLimit)
  // ---------------------------------------------------------------------------

  /** Rows of the address `ip`. */
  function AtIp(ip: string): Row<TestLimit> -> bool {
    (row: Row<TestLimit>) => row.data.userIp == ip
  }

  /** Position of the counter row of `ip`. */
  function FindIp(t: Table<TestLimit>, ip: string): (r: Option<nat>)
    ensures r.None? <==> forall i :: 0 <= i < |t| ==> t[i].data.userIp != ip
    ensures r.Some? ==> r.value < |t| && t[r.value].data.userIp == ip
    ensures r.Some? ==> forall j :: 0 <= j < r.value ==> t[j].data.userIp != ip
  {
    FindFirst(t, AtIp(ip))
  }

  /** The stored count of `ip`; an address without a row has used nothing. */
  function CountOf(t: Table<TestLimit>, ip: string): int {
    match FindIp(t, ip)
    case None => 0
    case Some(i) => t[i].data.userCount
  }

  /** The ceiling of `ip`: the stored one, or `defaultLimit` for an address without a row. */
  function LimitOf(t: Table<TestLimit>, ip: string, defaultLimit: int): int {
    match FindIp(t, ip)
    case None => defaultLimit
    case Some(i) => t[i].data.limit
  }

  /**
   * get_or_create_test_limit: the table afterwards and the position of the
   * row of `ip`. A missing row is created with count 0 and the default
   * ceiling; an existing row is returned as it is.
   */
  function GetOrCreateLimit(t: Table<TestLimit>, ip: string, defaultLimit: int): (r: (Table<TestLimit>, nat))
    ensures r.1 < |r.0| && r.0[r.1].data.userIp == ip
  {
    match FindIp(t, ip)
    case Some(i) => (t, i)
    case None => (Insert(t, TestLimit(ip, 0, defaultLimit)), |t|)
  }

  /**
   * get_or_create returns the first row of the address; it leaves the table
   * alone when the address has a row (whose ceiling the default never
   * overwrites) and otherwise appends one with count 0 and the default.
   */
  lemma GetOrCreateFacts(t: Table<TestLimit>, ip: string, defaultLimit: int)
    ensures var r := GetOrCreateLimit(t, ip, defaultLimit);
      && FindIp(r.0, ip) == Some(r.1)
      && (FindIp(t, ip).Some? ==> r.0 == t)
      && (FindIp(t, ip).None? ==> r.0 == Insert(t, TestLimit(ip, 0, defaultLimit)))
      && CountOf(r.0, ip) == CountOf(t, ip) && LimitOf(r.0, ip, defaultLimit) == LimitOf(t, ip, defaultLimit)
  {
    var r := GetOrCreateLimit(t, ip, defaultLimit);
    if FindIp(t, ip).None? {
      FindFirstIs(r.0, AtIp(ip), |t|);
    }
  }

  /** get_or_create never adds a second row for an address and keeps rowid order. */
  lemma GetOrCreateKeepsUnique(t: Table<TestLimit>, ip: string, defaultLimit: int)
    requires IdsIncreasing(t) && UniqueKey(t, IpOf)
    ensures IdsIncreasing(GetOrCreateLimit(t, ip, defaultLimit).0)
    ensures UniqueKey(GetOrCreateLimit(t, ip, defaultLimit).0, IpOf)
  {
    GetOrCreateFacts(t, ip, defaultLimit);
    if FindIp(t, ip).None? {
      InsertKeepsUnique(t, IpOf, TestLimit(ip, 0, defaultLimit));
    }
  }

  /** increment_test_limit: the table afterwards and the returned (count, limit). */
  function IncrementLimit(t: Table<TestLimit>, ip: string, defaultLimit: int): (Table<TestLimit>, int, int) {
    var u := GetOrCreateLimit(t, ip, defaultLimit).0;
    var i := GetOrCreateLimit(t, ip, defaultLimit).1;
    var row := u[i].data;
    (SetData(u, i, row.(userCount := row.userCount + 1)), row.userCount + 1, row.limit)
  }

  /** IncrementLimit in terms of the fetched table and position. */
  lemma IncrementLimitAt(t: Table<TestLimit>, ip: string, defaultLimit: int, u: Table<TestLimit>, i: nat)
    requires u == GetOrCreateLimit(t, ip, defaultLimit).0 && i == GetOrCreateLimit(t, ip, defaultLimit).1
    ensures i < |u|
    ensures IncrementLimit(t, ip, defaultLimit)
            == (SetData(u, i, u[i].data.(userCount := u[i].data.userCount + 1)), u[i].data.userCount + 1, u[i].data.limit)
  {
  }

  /**
   * increment_test_limit raises the count of `ip` by one and returns it with
   * the ceiling, which it keeps; every row of another address is left as it
   * was, and a row is added only for an address that had none.
   */
  lemma IncrementLimitFacts(t: Table<TestLimit>, ip: string, defaultLimit: int)
    ensures var r := IncrementLimit(t, ip, defaultLimit);
      && CountOf(r.0, ip) == CountOf(t, ip) + 1 == r.1
      && r.2 == LimitOf(t, ip, defaultLimit) == LimitOf(r.0, ip, defaultLimit)
      && |t| <= |r.0| <= |t| + 1
      && (forall j :: 0 <= j < |t| && t[j].data.userIp != ip ==> r.0[j] == t[j])
      && (forall j :: |t| <= j < |r.0| ==> r.0[j].data.userIp == ip)
  {
    var u := GetOrCreateLimit(t, ip, defaultLimit).0;
    var i := GetOrCreateLimit(t, ip, defaultLimit).1;
    var row := u[i].data;
    GetOrCreateFacts(t, ip, defaultLimit);
    FindFirstIs(SetData(u, i, row.(userCount := row.userCount + 1)), AtIp(ip), i);
  }

  /** The fetched record is found again by its id when it is saved (Model.save is an UPDATE by id). */
  lemma SavedRecordPosition(t: Table<TestLimit>, ip: string, defaultLimit: int)
    requires IdsIncreasing(t) && UniqueKey(t, IpOf)
    ensures var u := GetOrCreateLimit(t, ip, defaultLimit).0;
      var i := GetOrCreateLimit(t, ip, defaultLimit).1;
      IndexOfId(u, u[i].id) == Some(i)
  {
    GetOrCreateKeepsUnique(t, ip, defaultLimit);
    IndexOfIdAt(GetOrCreateLimit(t, ip, defaultLimit).0, GetOrCreateLimit(t, ip, defaultLimit).1);
  }

  /** check_test_limit_exceeded: the table afterwards and whether the count has reached the ceiling. */
  function LimitExceeded(t: Table<TestLimit>, ip: string, defaultLimit: int): (r: (Table<TestLimit>, bool))
    ensures r.1 <==> CountOf(t, ip) >= LimitOf(t, ip, defaultLimit)
    ensures CountOf(r.0, ip) == CountOf(t, ip) && LimitOf(r.0, ip, defaultLimit) == LimitOf(t, ip, defaultLimit)
  {
    GetOrCreateFacts(t, ip, defaultLimit);
    var (u, i) := GetOrCreateLimit(t, ip, defaultLimit);
    (u, u[i].data.userCount >= u[i].data.limit)
  }

  /**
   * The counter table after `n` calls of increment_test_limit for one
   * address: the count has grown by exactly `n` and the ceiling is the one
   * the first call settled.
   */
  function Increments(t: Table<TestLimit>, ip: string, defaultLimit: int, n: nat): (u: Table<TestLimit>)
    ensures CountOf(u, ip) == CountOf(t, ip) + n
    ensures LimitOf(u, ip, defaultLimit) == LimitOf(t, ip, defaultLimit)
    decreases n
  {
    if n == 0 then t
    else
      var p := Increments(t, ip, defaultLimit, n - 1);
      IncrementLimitFacts(p, ip, defaultLimit);
      IncrementLimit(p, ip, defaultLimit).0
  }

  /** A new address is refused exactly once it has been counted `defaultLimit` times. */
  lemma FreshAddressExceeded(t: Table<TestLimit>, ip: string, defaultLimit: int, n: nat)
    requires FindIp(t, ip).None?
    ensures LimitExceeded(Increments(t, ip, defaultLimit, n), ip, defaultLimit).1 <==> n >= defaultLimit
  {
  }

  // ---------------------------------------------------------------------------
  // Dialogs
  // ---------------------------------------------------------------------------

  /**
   * set_dialog: INSERT OR REPLACE on the unique key. The new rowid is taken
   * before the conflicting row is deleted, so it is one above the largest
   * id of the table as it was.
   */
  function ReplaceDialog(t: Table<Dialog>, d: Dialog): (t': Table<Dialog>)
    ensures |t'| >= 1
    ensures t'[..|t'| - 1] == Where(t, LacksKey(KeyOfDialog, KeyOfDialog(d)))
    ensures t'[|t'| - 1] == Row(NextId(t), d)
  {
    Where(t, LacksKey(KeyOfDialog, KeyOfDialog(d))) + [Row(NextId(t), d)]
  }

  /**
   * After set_dialog exactly one row carries the key, with the new data; the
   * rows with other keys are the same rows in the same order; the table
   * grows by one row unless the key was present.
   */
  lemma ReplaceDialogFacts(t: Table<Dialog>, d: Dialog)
    requires IdsIncreasing(t) && UniqueKey(t, KeyOfDialog)
    ensures var t' := ReplaceDialog(t, d);
      && Where(t', HasKey(KeyOfDialog, KeyOfDialog(d))) == [Row(NextId(t), d)]
      && Where(t', LacksKey(KeyOfDialog, KeyOfDialog(d))) == Where(t, LacksKey(KeyOfDialog, KeyOfDialog(d)))
      && |t'| == |t| + 1 - (if exists r :: r in t && KeyOfDialog(r.data) == KeyOfDialog(d) then 1 else 0)
  {
    var k := KeyOfDialog(d);
    var rest := Where(t, LacksKey(KeyOfDialog, k));
    var t' := ReplaceDialog(t, d);
    assert t'[..|t'| - 1] == rest;
    WhereNone(rest, HasKey(KeyOfDialog, k));
    WhereAll(rest, LacksKey(KeyOfDialog, k));
    WhereLacksKeyCount(t, KeyOfDialog, k);
  }

  /** set_dialog keeps rowid order and the unique index on (username, chattype, dialog_name). */
  lemma ReplaceDialogKeepsIndexes(t: Table<Dialog>, d: Dialog)
    requires IdsIncreasing(t) && UniqueKey(t, KeyOfDialog)
    ensures IdsIncreasing(ReplaceDialog(t, d)) && UniqueKey(ReplaceDialog(t, d), KeyOfDialog)
  {
    var k := KeyOfDialog(d);
    var rest := Where(t, LacksKey(KeyOfDialog, k));
    WhereKeepsIncreasing(t, LacksKey(KeyOfDialog, k));
    WhereKeepsUnique(t, LacksKey(KeyOfDialog, k), KeyOfDialog);
    forall i | 0 <= i < |rest| ensures rest[i].id < NextId(t) && KeyOfDialog(rest[i].data) != k {
      assert rest[i] in rest;
      var j :| 0 <= j < |t| && t[j] == rest[i];
    }
    AppendKeepsUnique(rest, KeyOfDialog, Row(NextId(t), d));
  }

  /** One row of the dialog list: every column but the context. */
  datatype DialogSummary = DialogSummary(id: nat, username: string, chattype: string, modelname: string,
                                         dialogName: string, startDate: int)

  function Summarize(r: Row<Dialog>): DialogSummary {
    DialogSummary(r.id, r.data.username, r.data.chattype, r.data.modelname, r.data.dialogName, r.data.startDate)
  }

  /** get_dialog_list: the user's dialogs from `date` on, newest id first. */
  function GetDialogList(t: Table<Dialog>, user: string, date: int): (r: seq<DialogSummary>)
    ensures forall s :: s in r ==> s.username == user && s.startDate >= date
    ensures forall s :: s in r ==> exists row :: row in t && Summarize(row) == s
    ensures forall row :: row in t && row.data.username == user && row.data.startDate >= date ==> Summarize(row) in r
    decreases |t|
  {
    if t == [] then []
    else
      var rest := GetDialogList(t[1..], user, date);
      assert forall row :: row in t ==> row == t[0] || row in t[1..];
      if t[0].data.username == user && t[0].data.startDate >= date then rest + [Summarize(t[0])] else rest
  }

  /** Every id in the dialog list is an id of the table. */
  lemma {:induction false} GetDialogListIdsAbove(t: Table<Dialog>, user: string, date: int, bound: int)
    requires forall k :: 0 <= k < |t| ==> t[k].id > bound
    ensures forall s :: s in GetDialogList(t, user, date) ==> s.id > bound
    decreases |t|
  {
    if t != [] {
      GetDialogListIdsAbove(t[1..], user, date, bound);
    }
  }

  predicate DescendingIds(r: seq<DialogSummary>) {
    forall i, j :: 0 <= i < j < |r| ==> r[i].id > r[j].id
  }

  /** In a table in rowid order the dialog list is in descending id order. */
  lemma {:induction false} GetDialogListDescending(t: Table<Dialog>, user: string, date: int)
    requires IdsIncreasing(t)
    ensures DescendingIds(GetDialogList(t, user, date))
    decreases |t|
  {
    if t != [] {
      var rest := GetDialogList(t[1..], user, date);
      GetDialogListDescending(t[1..], user, date);
      GetDialogListIdsAbove(t[1..], user, date, t[0].id);
      var r := GetDialogList(t, user, date);
      if t[0].data.username == user && t[0].data.startDate >= date {
        assert r == rest + [Summarize(t[0])];
        forall i, j | 0 <= i < j < |r| ensures r[i].id > r[j].id {
          assert r[i] == rest[i] && rest[i] in rest;
          if j < |rest| {
            assert r[j] == rest[j];
          }
        }
      } else {
        assert r == rest;
      }
    }
  }

  /** get_dialog_context: the dialog `id` if `user` owns it; another user's id gives nothing. */
  function GetDialogContext(t: Table<Dialog>, user: string, id: int): (r: Option<Row<Dialog>>)
    ensures r.Some? ==> r.value in t && r.value.id == id && r.value.data.username == user
    ensures r.None? <==> forall row :: row in t ==> !(row.id == id && row.data.username == user)
  {
    match FindFirst(t, (row: Row<Dialog>) => row.data.username == user && row.id == id)
    case None => None
    case Some(i) => Some(t[i])
  }

  /** Rows delete_dialogs removes: owned by `user` with an id in the list. */
  function Doomed(user: string, ids: seq<int>): Row<Dialog> -> bool {
    (r: Row<Dialog>) => r.data.username == user && r.id in ids
  }

  function Spared(user: string, ids: seq<int>): Row<Dialog> -> bool {
    (r: Row<Dialog>) => !(r.data.username == user && r.id in ids)
  }

  /** delete_dialogs: the table afterwards and the number of rows deleted. */
  function DeleteUserDialogs(t: Table<Dialog>, user: string, ids: seq<int>): (r: (Table<Dialog>, nat))
    ensures ids == [] ==> r == (t, 0)
    ensures forall row :: row in r.0 <==> row in t && !(row.data.username == user && row.id in ids)
    ensures r.1 == |t| - |r.0|
  {
    if ids == [] then (t, 0)
    else
      var kept := Where(t, Spared(user, ids));
      (kept, |t| - |kept|)
  }

  /**
   * The count delete_dialogs returns is the number of the user's rows whose
   * id is listed, and the rows of every other user survive even when their
   * ids are listed.
   */
  lemma DeleteUserDialogsFacts(t: Table<Dialog>, user: string, ids: seq<int>)
    requires IdsIncreasing(t)
    ensures var (t', n) := DeleteUserDialogs(t, user, ids);
      && n == |Where(t, Doomed(user, ids))|
      && (forall row :: row in t && row.data.username != user ==> row in t')
      && IdsIncreasing(t')
  {
    if ids == [] {
      WhereNone(t, Doomed(user, ids));
    } else {
      WherePartition(t, Spared(user, ids), Doomed(user, ids));
      WhereKeepsIncreasing(t, Spared(user, ids));
    }
  }

  /** Position of the dialog `id` owned by `user`. */
  function FindOwned(t: Table<Dialog>, user: string, id: int): (r: Option<nat>)
    ensures r.None? <==> forall i :: 0 <= i < |t| ==> !(t[i].data.username == user && t[i].id == id)
    ensures r.Some? ==> r.value < |t| && t[r.value].data.username == user && t[r.value].id == id
  {
    FindFirst(t, (row: Row<Dialog>) => row.data.username == user && row.id == id)
  }

  /**
   * update_dialog_title: the table afterwards and whether a row changed.
   * The UPDATE touches the row `id` owned by `user`; when the new title
   * collides with another row's unique key SQLite refuses it and the
   * function reports false with the table unchanged.
   */
  function RenameDialog(t: Table<Dialog>, user: string, id: int, title: string): (r: (Table<Dialog>, bool))
    requires IdsIncreasing(t)
    ensures !r.1 ==> r.0 == t
    ensures r.1 <==> exists i :: 0 <= i < |t| && t[i].data.username == user && t[i].id == id
                      && forall j :: 0 <= j < |t| && j != i ==> KeyOfDialog(t[j].data) != KeyOfDialog(t[i].data.(dialogName := title))
    ensures r.1 ==> |r.0| == |t| && forall i :: 0 <= i < |t| ==>
      if t[i].data.username == user && t[i].id == id then r.0[i] == Row(t[i].id, t[i].data.(dialogName := title))
      else r.0[i] == t[i]
  {
    match FindOwned(t, user, id)
    case None => (t, false)
    case Some(i) =>
      var d := t[i].data.(dialogName := title);
      if exists j :: 0 <= j < |t| && j != i && KeyOfDialog(t[j].data) == KeyOfDialog(d) then (t, false)
      else (SetData(t, i, d), true)
  }

  /** Renaming keeps rowid order and the unique index. */
  lemma RenameDialogKeepsUnique(t: Table<Dialog>, user: string, id: int, title: string)
    requires IdsIncreasing(t) && UniqueKey(t, KeyOfDialog)
    ensures IdsIncreasing(RenameDialog(t, user, id, title).0) && UniqueKey(RenameDialog(t, user, id, title).0, KeyOfDialog)
  {
    match FindOwned(t, user, id)
    case None =>
    case Some(i) =>
      var d := t[i].data.(dialogName := title);
      if !exists j :: 0 <= j < |t| && j != i && KeyOfDialog(t[j].data) == KeyOfDialog(d) {
        assert RenameDialog(t, user, id, title).0 == SetData(t, i, d);
        SetDataKeepsUnique(t, KeyOfDialog, i, d);
      } else {
        assert RenameDialog(t, user, id, title).0 == t;
      }
  }

  // ---------------------------------------------------------------------------
  // Model metadata and prompt presets
  // ---------------------------------------------------------------------------

  /** The conjunction of the filters get_model_meta_list was given; an absent filter accepts every row. */
  function ModelFilter(names: Option<seq<string>>, recommend: Option<bool>, statusValid: Option<bool>): Row<ModelMeta> -> bool {
    (r: Row<ModelMeta>) =>
      && (names.None? || r.data.modelName in names.value)
      && (recommend.None? || r.data.recommend == recommend.value)
      && (statusValid.None? || r.data.statusValid == statusValid.value)
  }

  /** get_model_meta_list: the rows that pass every given filter, in rowid order. */
  function GetModelMetaList(t: Table<ModelMeta>, names: Option<seq<string>>, recommend: Option<bool>,
                            statusValid: Option<bool>): (r: Table<ModelMeta>)
    ensures forall row :: row in r <==>
      && row in t
      && (names.None? || row.data.modelName in names.value)
      && (recommend.None? || row.data.recommend == recommend.value)
      && (statusValid.None? || row.data.statusValid == statusValid.value)
  {
    Where(t, ModelFilter(names, recommend, statusValid))
  }

  /** Without filters get_model_meta_list returns the whole table in rowid order. */
  lemma ModelListUnfiltered(t: Table<ModelMeta>)
    ensures GetModelMetaList(t, None, None, None) == t
  {
    WhereAll(t, ModelFilter(None, None, None));
  }

  /** The three columns get_system_prompts_by_group returns for a preset. */
  datatype PromptView = PromptView(roleName: string, roleDesc: string, roleContent: string)

  function ViewOf(p: SystemPrompt): PromptView {
    PromptView(p.roleName, p.roleDesc, p.roleContent)
  }

  /** The groups of the valid presets, in the order they first occur. */
  function GroupOrder(t: Table<SystemPrompt>): seq<string>
    decreases |t|
  {
    if t == [] then []
    else
      var o := GroupOrder(t[..|t| - 1]);
      var last := t[|t| - 1].data;
      if last.statusValid && last.roleGroup !in o then o + [last.roleGroup] else o
  }

  /** The group order lists each group of a valid preset, and only those, exactly once. */
  lemma {:induction false} GroupOrderFacts(t: Table<SystemPrompt>)
    ensures forall g :: g in GroupOrder(t) <==> exists r :: r in t && r.data.statusValid && r.data.roleGroup == g
    ensures forall i, j :: 0 <= i < j < |GroupOrder(t)| ==> GroupOrder(t)[i] != GroupOrder(t)[j]
    decreases |t|
  {
    if t != [] {
      var p := t[..|t| - 1];
      GroupOrderFacts(p);
      assert forall r :: r in t <==> r in p || r == t[|t| - 1];
      var o := GroupOrder(p);
      var last := t[|t| - 1].data;
      if last.statusValid && last.roleGroup !in o {
        var n := o + [last.roleGroup];
        forall i, j | 0 <= i < j < |n|
          ensures n[i] != n[j]
        {
          if j == |o| {
            assert n[i] == o[i] && o[i] in o;
          } else {
            assert n[i] == o[i] && n[j] == o[j];
          }
        }
      }
      assert GroupOrder(t) == if last.statusValid && last.roleGroup !in o then o + [last.roleGroup] else o;
    }
  }

  /** The views of the valid presets of group `g`, in rowid order. */
  function GroupMembers(t: Table<SystemPrompt>, g: string): seq<PromptView>
    decreases |t|
  {
    if t == [] then []
    else
      var last := t[|t| - 1].data;
      GroupMembers(t[..|t| - 1], g) + (if last.statusValid && last.roleGroup == g then [ViewOf(last)] else [])
  }

  /** A group holds the views of exactly its valid presets, and is empty exactly when it has none. */
  lemma {:induction false} GroupMembersFacts(t: Table<SystemPrompt>, g: string)
    ensures GroupMembers(t, g) == [] <==> forall r :: r in t ==> !(r.data.statusValid && r.data.roleGroup == g)
    ensures forall v :: v in GroupMembers(t, g) <==>
              exists r :: r in t && r.data.statusValid && r.data.roleGroup == g && ViewOf(r.data) == v
    decreases |t|
  {
    if t != [] {
      var p := t[..|t| - 1];
      GroupMembersFacts(p, g);
      assert forall r :: r in t <==> r in p || r == t[|t| - 1];
    }
  }

  /** One more preset: its group is appended to the order on first sight. */
  lemma GroupStep(t: Table<SystemPrompt>, i: nat)
    requires i < |t|
    ensures var p := t[i].data;
      GroupOrder(t[..i + 1])
      == if p.statusValid && p.roleGroup !in GroupOrder(t[..i]) then GroupOrder(t[..i]) + [p.roleGroup] else GroupOrder(t[..i])
  {
    assert t[..i + 1][..i] == t[..i];
  }

  /** One more preset appends its view to its own group only. */
  lemma GroupMembersStep(t: Table<SystemPrompt>, i: nat, g: string)
    requires i < |t|
    ensures var p := t[i].data;
      GroupMembers(t[..i + 1], g)
      == GroupMembers(t[..i], g) + (if p.statusValid && p.roleGroup == g then [ViewOf(p)] else [])
  {
    assert t[..i + 1][..i] == t[..i];
  }

  /**
   * The dictionary get_system_prompts_by_group builds from `t`: its keys
   * in insertion order are the groups in order of first occurrence, and
   * each group holds the views of its valid presets in rowid order.
   */
  ghost predicate Grouping(t: Table<SystemPrompt>, order: seq<string>, groups: map<string, seq<PromptView>>) {
    && order == GroupOrder(t)
    && (forall g :: g in groups <==> g in order)
    && (forall g :: g in groups ==> groups[g] == GroupMembers(t, g))
  }

  /** An invalid preset leaves the dictionary as it was. */
  lemma InvalidPresetSkipped(t: Table<SystemPrompt>, i: nat, order: seq<string>, groups: map<string, seq<PromptView>>)
    requires i < |t| && !t[i].data.statusValid
    requires Grouping(t[..i], order, groups)
    ensures Grouping(t[..i + 1], order, groups)
  {
    GroupStep(t, i);
    forall g | g in groups
      ensures groups[g] == GroupMembers(t[..i + 1], g)
    {
      GroupMembersStep(t, i, g);
    }
  }

  /** A valid preset of a group already open is appended to that group. */
  lemma PresetJoinsGroup(t: Table<SystemPrompt>, i: nat, order: seq<string>, groups: map<string, seq<PromptView>>)
    requires i < |t| && t[i].data.statusValid && t[i].data.roleGroup in groups
    requires Grouping(t[..i], order, groups)
    ensures var g := t[i].data.roleGroup;
      Grouping(t[..i + 1], order, groups[g := groups[g] + [ViewOf(t[i].data)]])
  {
    GroupStep(t, i);
    var p := t[i].data;
    var groups' := groups[p.roleGroup := groups[p.roleGroup] + [ViewOf(p)]];
    assert order == GroupOrder(t[..i + 1]);
    forall g
      ensures g in groups' <==> g in order
    {
      assert g in groups <==> g in order;
    }
    forall g | g in groups'
      ensures groups'[g] == GroupMembers(t[..i + 1], g)
    {
      GroupMembersStep(t, i, g);
      assert groups'[g] == groups[g] + (if g == p.roleGroup then [ViewOf(p)] else []);
    }
  }

  /** A valid preset of a group not seen yet opens the group, at the end of the order, with its view alone. */
  lemma PresetOpensGroup(t: Table<SystemPrompt>, i: nat, order: seq<string>, groups: map<string, seq<PromptView>>)
    requires i < |t| && t[i].data.statusValid && t[i].data.roleGroup !in groups
    requires Grouping(t[..i], order, groups)
    ensures var g := t[i].data.roleGroup;
      var withGroup := groups[g := []];
      Grouping(t[..i + 1], order + [g], withGroup[g := withGroup[g] + [ViewOf(t[i].data)]])
  {
    GroupStep(t, i);
    var p := t[i].data;
    var withGroup := groups[p.roleGroup := []];
    var groups' := withGroup[p.roleGroup := withGroup[p.roleGroup] + [ViewOf(p)]];
    forall g
      ensures g in groups' <==> g in order + [p.roleGroup]
    {
      assert g in groups <==> g in order;
    }
    assert order + [p.roleGroup] == GroupOrder(t[..i + 1]);
    forall g | g in groups'
      ensures groups'[g] == GroupMembers(t[..i + 1], g)
    {
      GroupMembersStep(t, i, g);
      if g == p.roleGroup {
        UnseenGroupEmpty(t[..i], g);
        assert groups'[g] == [] + [ViewOf(p)];
      } else {
        assert groups'[g] == groups[g];
      }
    }
  }

  /** A group that has not occurred yet has no members yet. */
  lemma UnseenGroupEmpty(t: Table<SystemPrompt>, g: string)
    requires g !in GroupOrder(t)
    ensures GroupMembers(t, g) == []
  {
    GroupOrderFacts(t);
    GroupMembersFacts(t, g);
  }

  // ---------------------------------------------------------------------------
  // The store
  // ---------------------------------------------------------------------------

  /** The tables of the database file, changed in place by the statements below. */
  class Database {
    var logs: Table<Log>
    var dialogs: Table<Dialog>
    var modelMetas: Table<ModelMeta>
    var systemPrompts: Table<SystemPrompt>
    var testLimits: Table<TestLimit>
    var users: Table<User>

    /** Rowid order on every table, and the unique indexes of the schema. */
    predicate Valid()
      reads this
    {
      LogsValid() && DialogsValid() && ModelMetasValid() && SystemPromptsValid() && TestLimitsValid() && UsersValid()
    }

    predicate LogsValid() reads this`logs { IdsIncreasing(logs) }

    predicate DialogsValid() reads this`dialogs {
      IdsIncreasing(dialogs) && UniqueKey(dialogs, KeyOfDialog)
    }

    predicate ModelMetasValid() reads this`modelMetas {
      IdsIncreasing(modelMetas) && UniqueKey(modelMetas, NameOfModel)
    }

    predicate SystemPromptsValid() reads this`systemPrompts {
      IdsIncreasing(systemPrompts) && UniqueKey(systemPrompts, KeyOfPrompt)
    }

    predicate TestLimitsValid() reads this`testLimits {
      IdsIncreasing(testLimits) && UniqueKey(testLimits, IpOf)
    }

    /** The username is unique in the user table. */
    predicate UsersValid() reads this`users {
      IdsIncreasing(users) && UniqueKey(users, NameOfUser)
    }

    /** init_db on a fresh file: every table empty. */
    constructor ()
      ensures Valid()
      ensures logs == [] && dialogs == [] && modelMetas == [] && systemPrompts == [] && testLimits == [] && users == []
    {
      logs, dialogs, modelMetas, systemPrompts, testLimits, users := [], [], [], [], [], [];
    }

    /** get_or_create_test_limit */
    method GetOrCreateTestLimit(ip: string, defaultLimit: int) returns (record: Row<TestLimit>)
      requires Valid()
      modifies this`testLimits
      ensures Valid()
      ensures testLimits == GetOrCreateLimit(old(testLimits), ip, defaultLimit).0
      ensures record == testLimits[GetOrCreateLimit(old(testLimits), ip, defaultLimit).1]
    {
      GetOrCreateKeepsUnique(testLimits, ip, defaultLimit);
      var r := GetOrCreateLimit(testLimits, ip, defaultLimit);
      testLimits := r.0;
      record := r.0[r.1];
    }

    /** Model.save of a counter row that keeps its address: an UPDATE of the row with the record's id. */
    method SaveTestLimit(record: Row<TestLimit>)
      requires Valid()
      requires IndexOfId(testLimits, record.id).Some?
      requires testLimits[IndexOfId(testLimits, record.id).value].data.userIp == record.data.userIp
      modifies this`testLimits
      ensures Valid()
      ensures testLimits == SetData(old(testLimits), IndexOfId(old(testLimits), record.id).value, record.data)
    {
      var k := IndexOfId(testLimits, record.id).value;
      SetDataSameKeyKeepsUnique(testLimits, IpOf, k, record.data);
      testLimits := SetData(testLimits, k, record.data);
    }

    /**
     * increment_test_limit: fetch or create the row, add one to its count,
     * save it (SavedRecordPosition: the UPDATE by id hits the fetched row).
     */
    method IncrementTestLimit(ip: string, defaultLimit: int) returns (count: int, limit: int)
      requires Valid()
      modifies this`testLimits
      ensures Valid()
      ensures (testLimits, count, limit) == IncrementLimit(old(testLimits), ip, defaultLimit)
    {
      var (u, i) := GetOrCreateLimit(testLimits, ip, defaultLimit);
      IncrementLimitAt(testLimits, ip, defaultLimit, u, i);
      GetOrCreateKeepsUnique(testLimits, ip, defaultLimit);
      var updated := u[i].data.(userCount := u[i].data.userCount + 1);
      SetDataSameKeyKeepsUnique(u, IpOf, i, updated);
      testLimits := SetData(u, i, updated);
      count, limit := updated.userCount, updated.limit;
    }

    /** check_test_limit_exceeded */
    method CheckTestLimitExceeded(ip: string, defaultLimit: int) returns (exceeded: bool)
      requires Valid()
      modifies this`testLimits
      ensures Valid()
      ensures (testLimits, exceeded) == LimitExceeded(old(testLimits), ip, defaultLimit)
    {
      var record := GetOrCreateTestLimit(ip, defaultLimit);
      exceeded := record.data.userCount >= record.data.limit;
    }

    /** set_log: one more usage row. */
    method SetLog(user: string, usage: int, model: string, text: string)
      requires Valid()
      modifies this`logs
      ensures Valid()
      ensures logs == Insert(old(logs), Log(user, model, usage, text))
    {
      InsertKeepsIncreasing(logs, Log(user, model, usage, text));
      logs := Insert(logs, Log(user, model, usage, text));
    }

    /** set_dialog, with the clock's date passed in as `today`. */
    method SetDialog(user: string, model: string, chattype: string, dialogName: string, context: string, today: int)
      requires Valid()
      modifies this`dialogs
      ensures Valid()
      ensures dialogs == ReplaceDialog(old(dialogs), Dialog(user, chattype, model, dialogName, today, context))
    {
      var d := Dialog(user, chattype, model, dialogName, today, context);
      ReplaceDialogKeepsIndexes(dialogs, d);
      dialogs := ReplaceDialog(dialogs, d);
    }

    /** delete_dialogs */
    method DeleteDialogs(user: string, ids: seq<int>) returns (deleted: nat)
      requires Valid()
      modifies this`dialogs
      ensures Valid()
      ensures (dialogs, deleted) == DeleteUserDialogs(old(dialogs), user, ids)
    {
      if ids == [] {
        return 0;
      }
      DeleteUserDialogsFacts(dialogs, user, ids);
      var before := dialogs;
      dialogs := Where(dialogs, Spared(user, ids));
      forall r1, r2 | r1 in dialogs && r2 in dialogs && KeyOfDialog(r1.data) == KeyOfDialog(r2.data) ensures r1 == r2 {
        assert r1 in before && r2 in before;
      }
      deleted := |before| - |dialogs|;
    }

    /** update_dialog_title */
    method UpdateDialogTitle(user: string, id: int, title: string) returns (changed: bool)
      requires Valid()
      modifies this`dialogs
      ensures Valid()
      ensures (dialogs, changed) == RenameDialog(old(dialogs), user, id, title)
    {
      RenameDialogKeepsUnique(dialogs, user, id, title);
      dialogs, changed := RenameDialog(dialogs, user, id, title).0, RenameDialog(dialogs, user, id, title).1;
    }

    /**
     * get_system_prompts_by_group: walks the valid presets in rowid order,
     * opening a group the first time it is seen and appending each view to
     * its group. `order` is the key order of the resulting dictionary.
     */
    method GetSystemPromptsByGroup() returns (order: seq<string>, groups: map<string, seq<PromptView>>)
      ensures Grouping(systemPrompts, order, groups)
    {
      order, groups := [], map[];
      var i := 0;
      while i < |systemPrompts|
        invariant 0 <= i <= |systemPrompts|
        invariant Grouping(systemPrompts[..i], order, groups)
      {
        var prompt := systemPrompts[i].data;
        if prompt.statusValid {
          var group := prompt.roleGroup;
          if group !in groups {
            PresetOpensGroup(systemPrompts, i, order, groups);
            order := order + [group];
            groups := groups[group := []];
          } else {
            PresetJoinsGroup(systemPrompts, i, order, groups);
          }
          groups := groups[group := groups[group] + [ViewOf(prompt)]];
        } else {
          InvalidPresetSkipped(systemPrompts, i, order, groups);
        }
        i := i + 1;
      }
      assert systemPrompts[..i] == systemPrompts;
    }
  }
}
