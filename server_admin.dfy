/**
 * The admin API over the store: request values as a map from field name to
 * text, the admin credential gate, the boolean convention of the API, and
 * the list, get, create, update, delete and reset handlers of the
 * admin-managed tables. Each handler returns either its data or the error
 * the handler reports; a handler that reports an error leaves the store as
 * it was.
 */
module ServerAdmin {
  import opened Common
  import opened Tables
  import opened SqliteLog

  /** The request values (JSON body, form or query string), every value as text. */
  type Form = map<string, string>

  /** data.get(key, default) */
  function Get(form: Form, key: string, default: string): string {
    if key in form then form[key] else default
  }

  /** Python truthiness of data.get(key): present and not empty. */
  predicate Given(form: Form, key: string) {
    key in form && form[key] != ""
  }

  /** The boolean convention of the admin API: the lower-cased text is 'true', '1' or 'yes'. */
  predicate FormBool(s: string) {
    Lower(s) in {"true", "1", "yes"}
  }

  /** The convention ignores letter case but not surrounding blanks, and nothing else reads as true. */
  lemma FormBoolExamples()
    ensures FormBool("true") && FormBool("TRUE") && FormBool("Yes") && FormBool("1")
    ensures !FormBool(" true") && !FormBool("on") && !FormBool("false") && !FormBool("")
  {
    assert Lower("true") == "true";
    assert Lower("TRUE") == "true";
    assert Lower("Yes") == "yes";
    assert Lower("1") == "1";
    assert Lower(" true")[0] == ' ';
    assert |Lower("on")| == 2 && Lower("on") != "1";
    assert |Lower("false")| == 5;
  }

  /** What a handler reports instead of data. */
  datatype AdminError =
    | AuthFailed(detail: string) // the credential check refused; "" stands for the default message
    | MissingField               // a required field is absent or blank
    | NotANumber                 // int() refused a count, a limit or a priority
    | NotFound                   // no row with the requested id
    | AlreadyExists              // a unique index refused the row
    | Failed                     // any other exception, reported by the handler's generic branch
    | NothingToReset             // test_limit/reset without id, ip or reset_all
    | IpNotFound                 // test_limit/reset for an address without a row
    | BadStatus                  // a notification status outside active/inactive
    | NothingToUpdate            // a notification patch without fields

  datatype Reply<T> = Ok(value: T) | Err(error: AdminError)

  /** A credential as require_admin_auth reads it: the stripped value, "" when absent. */
  function Credential(form: Form, key: string): string {
    PyStrip(Get(form, key, ""))
  }

  /**
   * require_admin_auth: the stripped `user` and `password` must pass the
   * credential check for the role 'admin'. `verify` stands for
   * verify_user_password and returns its success flag and message.
   */
  function AdminGate(form: Form, verify: (string, string, string) -> (bool, string)): (r: Option<AdminError>)
    ensures r.None? <==> verify(Credential(form, "user"), Credential(form, "password"), "admin").0
    ensures r.Some? ==> r.value == AuthFailed(verify(Credential(form, "user"), Credential(form, "password"), "admin").1)
  {
    var check := verify(Credential(form, "user"), Credential(form, "password"), "admin");
    if check.0 then None else Some(AuthFailed(check.1))
  }

  /**
   * The gate strips both credentials before the check, so blanks a client
   * puts around a stripped name and password do not change the verdict.
   */
  lemma AdminGateIgnoresBlanks(form: Form, other: Form, verify: (string, string, string) -> (bool, string),
                               before: string, after: string)
    requires AllSpace(before, IsPySpace) && AllSpace(after, IsPySpace)
    requires "user" in other && PyStrip(other["user"]) == other["user"]
    requires "password" in other && PyStrip(other["password"]) == other["password"]
    requires form == other["user" := before + (other["user"] + after)]["password" := before + (other["password"] + after)]
    ensures AdminGate(form, verify) == AdminGate(other, verify)
  {
    PyStripPadded(before, other["user"], after);
    PyStripPadded(before, other["password"], after);
    assert form["user"] == before + (other["user"] + after);
    assert Credential(form, "user") == Credential(other, "user");
    assert Credential(form, "password") == Credential(other, "password");
  }

  /** The `id` field: absent or empty is MissingField; text int() refuses fails the handler. */
  function RequestId(form: Form): (r: Reply<int>)
    ensures r == Err(MissingField) <==> !Given(form, "id")
    ensures r == Err(Failed) <==> Given(form, "id") && ParsePyInt(form["id"]).None?
    ensures r.Ok? <==> Given(form, "id") && ParsePyInt(form["id"]).Some?
    ensures r.Ok? ==> ParsePyInt(form["id"]) == Some(r.value)
  {
    if !Given(form, "id") then Err(MissingField)
    else match ParsePyInt(form["id"])
      case None => Err(Failed)
      case Some(n) => Ok(n)
  }

  /** An id the front end sends as decimal text is read back as that id. */
  lemma RequestIdOfDecimal(form: Form, n: nat)
    requires "id" in form && form["id"] == NatToString(n)
    ensures RequestId(form) == Ok(n)
  {
    ParsePyIntOfNatToString(n);
  }

  /** The `id` field followed by Model.get_by_id: the position of the row, or the error. */
  function Locate<T>(t: Table<T>, form: Form): (r: Reply<nat>)
    ensures r.Ok? ==> RequestId(form).Ok? && r.value < |t| && t[r.value].id == RequestId(form).value
    ensures RequestId(form).Err? ==> r == Err(RequestId(form).error)
    ensures RequestId(form).Ok? ==> (r == Err(NotFound) <==> IndexOfId(t, RequestId(form).value).None?)
  {
    match RequestId(form)
    case Err(e) => Err(e)
    case Ok(id) =>
      match IndexOfId(t, id)
      case None => Err(NotFound)
      case Some(k) => Ok(k)
  }

  /** Model.get_by_id on an id from the route. */
  function GetById<T>(t: Table<T>, id: int): (r: Reply<Row<T>>)
    ensures r.Ok? ==> r.value in t && r.value.id == id
    ensures r.Err? <==> r == Err(NotFound) && forall i :: 0 <= i < |t| ==> t[i].id != id
  {
    match IndexOfId(t, id)
    case None => Err(NotFound)
    case Some(k) => Ok(t[k])
  }

  /** Some row holds `value` under the unique key. */
  predicate KeyTaken<T, K(==)>(t: Table<T>, key: T -> K, value: K) {
    exists j :: 0 <= j < |t| && key(t[j].data) == value
  }

  /** A row other than row `k` holds `value` under the unique key. */
  predicate KeyTakenByOther<T, K(==)>(t: Table<T>, key: T -> K, k: nat, value: K) {
    exists j :: 0 <= j < |t| && j != k && key(t[j].data) == value
  }

  /** The rows in descending id order (ORDER BY id DESC). */
  function NewestFirst<T>(t: Table<T>): (r: Table<T>)
    ensures |r| == |t| && forall i :: 0 <= i < |t| ==> r[i] == t[|t| - 1 - i]
    ensures IdsIncreasing(t) ==> forall i, j :: 0 <= i < j < |r| ==> r[i].id > r[j].id
  {
    seq(|t|, i requires 0 <= i < |t| => t[|t| - 1 - i])
  }

  /** A delete handler: the `id` field, Model.get_by_id, then delete_instance. */
  function DeleteById<T(==,!new)>(t: Table<T>, form: Form): (r: (Table<T>, Reply<()>))
    ensures r.1.Ok? <==> Locate(t, form).Ok?
    ensures r.1.Err? ==> r.0 == t && r.1 == Err(Locate(t, form).error)
    ensures r.1.Ok? ==> r.0 == RemoveId(t, RequestId(form).value)
  {
    match Locate(t, form)
    case Err(e) => (t, Err(e))
    case Ok(k) => (RemoveId(t, t[k].id), Ok(()))
  }

  /** A successful delete removes exactly one row: the one with the requested id. */
  lemma DeleteByIdRemovesOne<T(!new), K>(t: Table<T>, form: Form, key: T -> K)
    requires IdsIncreasing(t) && UniqueKey(t, key)
    ensures var (t', r) := DeleteById(t, form);
      && IdsIncreasing(t') && UniqueKey(t', key)
      && (r.Ok? ==> |t'| == |t| - 1 && forall row :: row in t' <==> row in t && row.id != RequestId(form).value)
  {
    if RequestId(form).Ok? {
      RemoveIdFacts(t, RequestId(form).value, key);
    }
  }

  // ---------------------------------------------------------------------------
  // ModelMeta
  // ---------------------------------------------------------------------------

  function OptionBool(s: Option<string>): Option<bool> {
    match s
    case None => None
    case Some(v) => Some(FormBool(v))
  }

  /** model_meta_list: the query arguments `recommend` and `status_valid`, when given, filter the table. */
  function ModelMetaList(t: Table<ModelMeta>, recommend: Option<string>, statusValid: Option<string>): (r: Table<ModelMeta>)
    ensures forall row :: row in r <==>
      && row in t
      && (recommend.Some? ==> row.data.recommend == FormBool(recommend.value))
      && (statusValid.Some? ==> row.data.statusValid == FormBool(statusValid.value))
  {
    GetModelMetaList(t, None, OptionBool(recommend), OptionBool(statusValid))
  }

  /** The row model_meta_create builds: stripped name, `recommend` false and `status_valid` true unless given. */
  function NewModelMeta(form: Form): (m: ModelMeta)
    ensures m.modelName == PyStrip(Get(form, "model_name", ""))
    ensures m.modelDesc == if "model_desc" in form then form["model_desc"] else ""
    ensures m.recommend <==> "recommend" in form && FormBool(form["recommend"])
    ensures m.statusValid <==> "status_valid" !in form || FormBool(form["status_valid"])
  {
    FormBoolExamples();
    ModelMeta(PyStrip(Get(form, "model_name", "")), Get(form, "model_desc", ""),
              FormBool(Get(form, "recommend", "false")), FormBool(Get(form, "status_valid", "true")))
  }

  /** model_meta_update's field-by-field patch: a field changes only when its key is in the request. */
  function PatchModelMeta(m: ModelMeta, form: Form): ModelMeta {
    ModelMeta(if "model_name" in form then PyStrip(form["model_name"]) else m.modelName,
              if "model_desc" in form then form["model_desc"] else m.modelDesc,
              if "recommend" in form then FormBool(form["recommend"]) else m.recommend,
              if "status_valid" in form then FormBool(form["status_valid"]) else m.statusValid)
  }

  /** A patch whose request names no field leaves the row as it is, and patching twice is patching once. */
  lemma PatchModelMetaFacts(m: ModelMeta, form: Form)
    ensures ("model_name" !in form && "model_desc" !in form && "recommend" !in form && "status_valid" !in form)
            ==> PatchModelMeta(m, form) == m
    ensures PatchModelMeta(PatchModelMeta(m, form), form) == PatchModelMeta(m, form)
  {
  }

  /**
   * model_meta_create. int() of `model_type` runs first (int() strips it
   * again), so a missing or non-numeric type fails the request before the
   * name is looked at; the value itself has no column to go to.
   */
  method ModelMetaCreate(db: Database, form: Form) returns (r: Reply<Row<ModelMeta>>)
    requires db.Valid()
    modifies db`modelMetas
    ensures db.Valid()
    ensures r.Err? ==> db.modelMetas == old(db.modelMetas)
    ensures ParsePyInt(Get(form, "model_type", "")).None? ==> r == Err(Failed)
    ensures ParsePyInt(Get(form, "model_type", "")).Some? ==>
      var m := NewModelMeta(form);
      if m.modelName == "" then r == Err(MissingField)
      else if KeyTaken(old(db.modelMetas), NameOfModel, m.modelName) then r == Err(AlreadyExists)
      else db.modelMetas == Insert(old(db.modelMetas), m) && r == Ok(db.modelMetas[|old(db.modelMetas)|])
  {
    var modelType := ParsePyInt(Get(form, "model_type", ""));
    if modelType.None? {
      return Err(Failed);
    }
    var m := NewModelMeta(form);
    if m.modelName == "" {
      return Err(MissingField);
    }
    if KeyTaken(db.modelMetas, NameOfModel, m.modelName) {
      return Err(AlreadyExists);
    }
    InsertKeepsUnique(db.modelMetas, NameOfModel, m);
    db.modelMetas := Insert(db.modelMetas, m);
    r := Ok(db.modelMetas[|db.modelMetas| - 1]);
  }

  /**
   * The /model_meta/create route as served: require_admin_auth decides
   * first, and `gate` is its verdict, AdminGate(form, verify). A refused
   * request gets the gate's AuthFailed error and the handler does not
   * run; otherwise the result and the new table are ModelMetaCreate's.
   */
  method AdminModelMetaCreate(db: Database, form: Form, gate: Option<AdminError>)
    returns (r: Reply<Row<ModelMeta>>)
    requires db.Valid()
    modifies db`modelMetas
    ensures db.Valid()
    ensures gate.Some? ==> r == Err(gate.value) && db.modelMetas == old(db.modelMetas)
    ensures gate.None? && ParsePyInt(Get(form, "model_type", "")).None? ==> r == Err(Failed)
    ensures gate.None? && ParsePyInt(Get(form, "model_type", "")).Some? ==>
      var m := NewModelMeta(form);
      if m.modelName == "" then r == Err(MissingField)
      else if KeyTaken(old(db.modelMetas), NameOfModel, m.modelName) then r == Err(AlreadyExists)
      else db.modelMetas == Insert(old(db.modelMetas), m) && r == Ok(db.modelMetas[|old(db.modelMetas)|])
  {
    if gate.Some? {
      r := Err(gate.value);
    } else {
      r := ModelMetaCreate(db, form);
    }
  }

  /** model_meta_update: fetch the row, assign the fields the request names, save by id. */
  method ModelMetaUpdate(db: Database, form: Form) returns (r: Reply<Row<ModelMeta>>)
    requires db.Valid()
    modifies db`modelMetas
    ensures db.Valid()
    ensures r.Err? ==> db.modelMetas == old(db.modelMetas)
    ensures match Locate(old(db.modelMetas), form)
      case Err(e) => r == Err(e)
      case Ok(k) =>
        var m := PatchModelMeta(old(db.modelMetas)[k].data, form);
        if KeyTakenByOther(old(db.modelMetas), NameOfModel, k, m.modelName) then r == Err(AlreadyExists)
        else db.modelMetas == SetData(old(db.modelMetas), k, m) && r == Ok(db.modelMetas[k])
  {
    var loc := Locate(db.modelMetas, form);
    if loc.Err? {
      return Err(loc.error);
    }
    var k := loc.value;
    var model := PatchModelMeta(db.modelMetas[k].data, form);
    if KeyTakenByOther(db.modelMetas, NameOfModel, k, model.modelName) {
      return Err(AlreadyExists);
    }
    SetDataKeepsUnique(db.modelMetas, NameOfModel, k, model);
    db.modelMetas := SetData(db.modelMetas, k, model);
    r := Ok(db.modelMetas[k]);
  }

  /** model_meta_delete */
  method ModelMetaDelete(db: Database, form: Form) returns (r: Reply<()>)
    requires db.Valid()
    modifies db`modelMetas
    ensures db.Valid()
    ensures (db.modelMetas, r) == DeleteById(old(db.modelMetas), form)
  {
    DeleteByIdRemovesOne(db.modelMetas, form, NameOfModel);
    db.modelMetas, r := DeleteById(db.modelMetas, form).0, DeleteById(db.modelMetas, form).1;
  }

  // ---------------------------------------------------------------------------
  // SystemPrompt
  // ---------------------------------------------------------------------------

  /** The filters of system_prompt_list: a non-empty `role_group`, and `status_valid` when given. */
  function PromptListFilter(roleGroup: Option<string>, statusValid: Option<string>): Row<SystemPrompt> -> bool {
    (r: Row<SystemPrompt>) =>
      && (roleGroup.Some? && roleGroup.value != "" ==> r.data.roleGroup == roleGroup.value)
      && (statusValid.Some? ==> r.data.statusValid == FormBool(statusValid.value))
  }

  /**
   * system_prompt_list as written: the query yields plain dictionaries and
   * the handler calls to_dict() on each, which a dictionary does not have;
   * the exception lands in the generic branch, so the listing succeeds only
   * when nothing matches.
   */
  function SystemPromptListAsWritten(t: Table<SystemPrompt>, roleGroup: Option<string>, statusValid: Option<string>)
    : (r: Reply<Table<SystemPrompt>>)
    ensures r.Ok? <==> Where(t, PromptListFilter(roleGroup, statusValid)) == []
    ensures r.Ok? ==> r.value == []
  {
    var matching := Where(t, PromptListFilter(roleGroup, statusValid));
    if matching == [] then Ok([]) else Err(Failed)
  }

  /** system_prompt_list as intended: every row that passes the filters, in rowid order. */
  function SystemPromptList(t: Table<SystemPrompt>, roleGroup: Option<string>, statusValid: Option<string>)
    : (r: Reply<Table<SystemPrompt>>)
    ensures r.Ok?
    ensures forall row :: row in r.value <==>
      && row in t
      && (roleGroup.Some? && roleGroup.value != "" ==> row.data.roleGroup == roleGroup.value)
      && (statusValid.Some? ==> row.data.statusValid == FormBool(statusValid.value))
  {
    Ok(Where(t, PromptListFilter(roleGroup, statusValid)))
  }

  /** The written listing agrees with the intended one exactly when no preset matches. */
  lemma SystemPromptListAgreesOnlyWhenEmpty(t: Table<SystemPrompt>, roleGroup: Option<string>, statusValid: Option<string>)
    ensures SystemPromptListAsWritten(t, roleGroup, statusValid) == SystemPromptList(t, roleGroup, statusValid)
            <==> forall row :: row in t ==> !PromptListFilter(roleGroup, statusValid)(row)
  {
    var w := Where(t, PromptListFilter(roleGroup, statusValid));
    if w != [] {
      assert w[0] in w;
    }
  }

  /** One valid preset and no filter: the written handler reports a failure, the intended one lists it. */
  lemma SystemPromptListCounterexample()
    ensures var t := [Row(1, SystemPrompt("coder", "dev", "", "", true))];
      && SystemPromptListAsWritten(t, None, None) == Err(Failed)
      && SystemPromptList(t, None, None) == Ok(t)
  {
    var t := [Row(1, SystemPrompt("coder", "dev", "", "", true))];
    WhereAll(t, PromptListFilter(None, None));
  }

  /** The row system_prompt_create builds: stripped name and group, `status_valid` true unless given. */
  function NewSystemPrompt(form: Form): (p: SystemPrompt)
    ensures p.roleName == PyStrip(Get(form, "role_name", "")) && p.roleGroup == PyStrip(Get(form, "role_group", ""))
    ensures p.roleDesc == if "role_desc" in form then form["role_desc"] else ""
    ensures p.roleContent == if "role_content" in form then form["role_content"] else ""
    ensures p.statusValid <==> "status_valid" !in form || FormBool(form["status_valid"])
  {
    FormBoolExamples();
    SystemPrompt(PyStrip(Get(form, "role_name", "")), PyStrip(Get(form, "role_group", "")),
                 Get(form, "role_desc", ""), Get(form, "role_content", ""),
                 FormBool(Get(form, "status_valid", "true")))
  }

  /** system_prompt_create; `form` is the form body only (request.form), not a JSON body. */
  method SystemPromptCreate(db: Database, form: Form) returns (r: Reply<Row<SystemPrompt>>)
    requires db.Valid()
    modifies db`systemPrompts
    ensures db.Valid()
    ensures r.Err? ==> db.systemPrompts == old(db.systemPrompts)
    ensures var p := NewSystemPrompt(form);
      if p.roleName == "" || p.roleGroup == "" then r == Err(MissingField)
      else if KeyTaken(old(db.systemPrompts), KeyOfPrompt, KeyOfPrompt(p)) then r == Err(AlreadyExists)
      else db.systemPrompts == Insert(old(db.systemPrompts), p) && r == Ok(db.systemPrompts[|old(db.systemPrompts)|])
  {
    var p := NewSystemPrompt(form);
    if p.roleName == "" || p.roleGroup == "" {
      return Err(MissingField);
    }
    if KeyTaken(db.systemPrompts, KeyOfPrompt, KeyOfPrompt(p)) {
      return Err(AlreadyExists);
    }
    InsertKeepsUnique(db.systemPrompts, KeyOfPrompt, p);
    db.systemPrompts := Insert(db.systemPrompts, p);
    r := Ok(db.systemPrompts[|db.systemPrompts| - 1]);
  }

  /** system_prompt_update's patch: a field changes only when its key is in the request. */
  function PatchSystemPrompt(p: SystemPrompt, form: Form): SystemPrompt {
    SystemPrompt(if "role_name" in form then PyStrip(form["role_name"]) else p.roleName,
                 if "role_group" in form then PyStrip(form["role_group"]) else p.roleGroup,
                 if "role_desc" in form then form["role_desc"] else p.roleDesc,
                 if "role_content" in form then form["role_content"] else p.roleContent,
                 if "status_valid" in form then FormBool(form["status_valid"]) else p.statusValid)
  }

  /** system_prompt_update: fetch, assign the named fields, save by id under the (name, group) index. */
  method SystemPromptUpdate(db: Database, form: Form) returns (r: Reply<Row<SystemPrompt>>)
    requires db.Valid()
    modifies db`systemPrompts
    ensures db.Valid()
    ensures r.Err? ==> db.systemPrompts == old(db.systemPrompts)
    ensures match Locate(old(db.systemPrompts), form)
      case Err(e) => r == Err(e)
      case Ok(k) =>
        var p := PatchSystemPrompt(old(db.systemPrompts)[k].data, form);
        if KeyTakenByOther(old(db.systemPrompts), KeyOfPrompt, k, KeyOfPrompt(p)) then r == Err(AlreadyExists)
        else db.systemPrompts == SetData(old(db.systemPrompts), k, p) && r == Ok(db.systemPrompts[k])
  {
    var loc := Locate(db.systemPrompts, form);
    if loc.Err? {
      return Err(loc.error);
    }
    var k := loc.value;
    var prompt := PatchSystemPrompt(db.systemPrompts[k].data, form);
    if KeyTakenByOther(db.systemPrompts, KeyOfPrompt, k, KeyOfPrompt(prompt)) {
      return Err(AlreadyExists);
    }
    SetDataKeepsUnique(db.systemPrompts, KeyOfPrompt, k, prompt);
    db.systemPrompts := SetData(db.systemPrompts, k, prompt);
    r := Ok(db.systemPrompts[k]);
  }

  /** system_prompt_delete */
  method SystemPromptDelete(db: Database, form: Form) returns (r: Reply<()>)
    requires db.Valid()
    modifies db`systemPrompts
    ensures db.Valid()
    ensures (db.systemPrompts, r) == DeleteById(old(db.systemPrompts), form)
  {
    DeleteByIdRemovesOne(db.systemPrompts, form, KeyOfPrompt);
    db.systemPrompts, r := DeleteById(db.systemPrompts, form).0, DeleteById(db.systemPrompts, form).1;
  }

  // ---------------------------------------------------------------------------
  // TestLimit
  // ---------------------------------------------------------------------------

  /** int(data.get(key, default)): the default when absent, int() of the text otherwise. */
  function NumberField(form: Form, key: string, default: int): (r: Option<int>)
    ensures key !in form ==> r == Some(default)
    ensures key in form ==> r == ParsePyInt(form[key])
  {
    if key in form then ParsePyInt(form[key]) else Some(default)
  }

  /** A count sent as the decimal text of a number is read as that number, whatever the default. */
  lemma NumberFieldOfDecimal(form: Form, key: string, default: int, n: nat)
    ensures NumberField(form[key := NatToString(n)], key, default) == Some(n)
  {
    ParsePyIntOfNatToString(n);
  }

  /** test_limit_create */
  method TestLimitCreate(db: Database, form: Form) returns (r: Reply<Row<TestLimit>>)
    requires db.Valid()
    modifies db`testLimits
    ensures db.Valid()
    ensures r.Err? ==> db.testLimits == old(db.testLimits)
    ensures var ip := PyStrip(Get(form, "user_ip", ""));
      var count := NumberField(form, "user_count", 0);
      var limit := NumberField(form, "limit", 20);
      if ip == "" then r == Err(MissingField)
      else if count.None? || limit.None? then r == Err(NotANumber)
      else if KeyTaken(old(db.testLimits), IpOf, ip) then r == Err(AlreadyExists)
      else
        && db.testLimits == Insert(old(db.testLimits), TestLimit(ip, count.value, limit.value))
        && r == Ok(db.testLimits[|old(db.testLimits)|])
  {
    var ip := PyStrip(Get(form, "user_ip", ""));
    if ip == "" {
      return Err(MissingField);
    }
    var count := NumberField(form, "user_count", 0);
    var limit := NumberField(form, "limit", 20);
    if count.None? || limit.None? {
      return Err(NotANumber);
    }
    if KeyTaken(db.testLimits, IpOf, ip) {
      return Err(AlreadyExists);
    }
    var row := TestLimit(ip, count.value, limit.value);
    InsertKeepsUnique(db.testLimits, IpOf, row);
    db.testLimits := Insert(db.testLimits, row);
    r := Ok(db.testLimits[|db.testLimits| - 1]);
  }

  /** A created counter without `user_count` and `limit` starts at 0 of 20. */
  lemma TestLimitCreateDefaults(form: Form)
    requires "user_count" !in form && "limit" !in form
    ensures NumberField(form, "user_count", 0) == Some(0) && NumberField(form, "limit", 20) == Some(20)
  {
  }

  /**
   * test_limit_update's patch: the stripped `user_ip`, and `user_count` and
   * `limit` through int(); None when int() refuses one of them.
   */
  function PatchTestLimit(l: TestLimit, form: Form): (p: Option<TestLimit>)
    ensures p.None? <==> ("user_count" in form && ParsePyInt(form["user_count"]).None?)
                         || ("limit" in form && ParsePyInt(form["limit"]).None?)
    ensures p.Some? ==> p.value.userIp == (if "user_ip" in form then PyStrip(form["user_ip"]) else l.userIp)
    ensures p.Some? ==> p.value.userCount == if "user_count" in form then ParsePyInt(form["user_count"]).value else l.userCount
    ensures p.Some? ==> p.value.limit == if "limit" in form then ParsePyInt(form["limit"]).value else l.limit
  {
    var count := NumberField(form, "user_count", l.userCount);
    var limit := NumberField(form, "limit", l.limit);
    if count.None? || limit.None? then None
    else Some(TestLimit(if "user_ip" in form then PyStrip(form["user_ip"]) else l.userIp, count.value, limit.value))
  }

  /** test_limit_update: a number int() refuses returns before save(), so the stored row is unchanged. */
  method TestLimitUpdate(db: Database, form: Form) returns (r: Reply<Row<TestLimit>>)
    requires db.Valid()
    modifies db`testLimits
    ensures db.Valid()
    ensures r.Err? ==> db.testLimits == old(db.testLimits)
    ensures match Locate(old(db.testLimits), form)
      case Err(e) => r == Err(e)
      case Ok(k) =>
        match PatchTestLimit(old(db.testLimits)[k].data, form)
        case None => r == Err(NotANumber)
        case Some(p) =>
          if KeyTakenByOther(old(db.testLimits), IpOf, k, p.userIp) then r == Err(AlreadyExists)
          else db.testLimits == SetData(old(db.testLimits), k, p) && r == Ok(db.testLimits[k])
  {
    var loc := Locate(db.testLimits, form);
    if loc.Err? {
      return Err(loc.error);
    }
    var k := loc.value;
    var patched := PatchTestLimit(db.testLimits[k].data, form);
    if patched.None? {
      return Err(NotANumber);
    }
    var record := patched.value;
    if KeyTakenByOther(db.testLimits, IpOf, k, record.userIp) {
      return Err(AlreadyExists);
    }
    SetDataKeepsUnique(db.testLimits, IpOf, k, record);
    db.testLimits := SetData(db.testLimits, k, record);
    r := Ok(db.testLimits[k]);
  }

  /** test_limit_delete */
  method TestLimitDelete(db: Database, form: Form) returns (r: Reply<()>)
    requires db.Valid()
    modifies db`testLimits
    ensures db.Valid()
    ensures (db.testLimits, r) == DeleteById(old(db.testLimits), form)
  {
    DeleteByIdRemovesOne(db.testLimits, form, IpOf);
    db.testLimits, r := DeleteById(db.testLimits, form).0, DeleteById(db.testLimits, form).1;
  }

  /** UPDATE testlimit SET user_count = 0 for the rows `p` selects. */
  function ZeroCounts(t: Table<TestLimit>, p: Row<TestLimit> -> bool): (t': Table<TestLimit>)
    ensures |t'| == |t|
    ensures forall i :: 0 <= i < |t| ==>
      t'[i].id == t[i].id && t'[i].data.userIp == t[i].data.userIp && t'[i].data.limit == t[i].data.limit
    ensures forall i :: 0 <= i < |t| ==> t'[i].data.userCount == if p(t[i]) then 0 else t[i].data.userCount
  {
    seq(|t|, i requires 0 <= i < |t| => if p(t[i]) then Row(t[i].id, t[i].data.(userCount := 0)) else t[i])
  }

  /** Zeroing counts keeps rowid order and the one-row-per-address index. */
  lemma ZeroCountsKeepsUnique(t: Table<TestLimit>, p: Row<TestLimit> -> bool)
    requires IdsIncreasing(t) && UniqueKey(t, IpOf)
    ensures IdsIncreasing(ZeroCounts(t, p)) && UniqueKey(ZeroCounts(t, p), IpOf)
  {
    var t' := ZeroCounts(t, p);
    forall r1, r2 | r1 in t' && r2 in t' && IpOf(r1.data) == IpOf(r2.data) ensures r1 == r2 {
      var a :| 0 <= a < |t'| && t'[a] == r1;
      var b :| 0 <= b < |t'| && t'[b] == r2;
      assert t[a] in t && t[b] in t;
    }
  }

  function Everything(): Row<TestLimit> -> bool {
    (r: Row<TestLimit>) => true
  }

  /** What test_limit/reset reports on success. */
  datatype ResetDone = ResetAll(count: nat) | ResetOne(row: Row<TestLimit>) | ResetIp(ip: string)

  /**
   * test_limit/reset: `reset_all` takes precedence over `id`, and `id` over
   * `user_ip` (matched as sent, without stripping); with none of them the
   * request is refused and nothing changes.
   */
  method TestLimitReset(db: Database, form: Form) returns (r: Reply<ResetDone>)
    requires db.Valid()
    modifies db`testLimits
    ensures db.Valid()
    ensures r.Err? ==> db.testLimits == old(db.testLimits)
    ensures FormBool(Get(form, "reset_all", "false")) ==>
      db.testLimits == ZeroCounts(old(db.testLimits), Everything()) && r == Ok(ResetAll(|old(db.testLimits)|))
    ensures !FormBool(Get(form, "reset_all", "false")) && Given(form, "id") ==>
      match Locate(old(db.testLimits), form)
      case Err(e) => r == Err(e)
      case Ok(k) =>
        var row := Row(old(db.testLimits)[k].id, old(db.testLimits)[k].data.(userCount := 0));
        db.testLimits == old(db.testLimits)[k := row] && r == Ok(ResetOne(row))
    ensures !FormBool(Get(form, "reset_all", "false")) && !Given(form, "id") && Given(form, "user_ip") ==>
      if FindIp(old(db.testLimits), form["user_ip"]).Some? then
        db.testLimits == ZeroCounts(old(db.testLimits), AtIp(form["user_ip"])) && r == Ok(ResetIp(form["user_ip"]))
      else r == Err(IpNotFound)
    ensures !FormBool(Get(form, "reset_all", "false")) && !Given(form, "id") && !Given(form, "user_ip") ==>
      r == Err(NothingToReset)
  {
    if FormBool(Get(form, "reset_all", "false")) {
      ZeroCountsKeepsUnique(db.testLimits, Everything());
      r := Ok(ResetAll(|db.testLimits|));
      db.testLimits := ZeroCounts(db.testLimits, Everything());
    } else if Given(form, "id") {
      var loc := Locate(db.testLimits, form);
      if loc.Err? {
        return Err(loc.error);
      }
      var k := loc.value;
      var row := Row(db.testLimits[k].id, db.testLimits[k].data.(userCount := 0));
      SetDataSameKeyKeepsUnique(db.testLimits, IpOf, k, row.data);
      db.testLimits := db.testLimits[k := row];
      r := Ok(ResetOne(row));
    } else if Given(form, "user_ip") {
      var ip := form["user_ip"];
      if FindIp(db.testLimits, ip).None? {
        return Err(IpNotFound);
      }
      ZeroCountsKeepsUnique(db.testLimits, AtIp(ip));
      db.testLimits := ZeroCounts(db.testLimits, AtIp(ip));
      r := Ok(ResetIp(ip));
    } else {
      r := Err(NothingToReset);
    }
  }

  // ---------------------------------------------------------------------------
  // User
  // ---------------------------------------------------------------------------

  /** The columns user_to_dict exposes: never the hash or the salt. */
  datatype UserView = UserView(id: nat, username: string, apiKey: Option<string>, role: string,
                               isActive: bool, createdAt: int, updatedAt: int)

  function ViewOfUser(r: Row<User>): UserView {
    UserView(r.id, r.data.username, r.data.apiKey, r.data.role, r.data.isActive, r.data.createdAt, r.data.updatedAt)
  }

  /** user_list: every user, newest id first, as views. */
  function UserList(t: Table<User>): (r: seq<UserView>)
    ensures |r| == |t| && forall i :: 0 <= i < |t| ==> r[i] == ViewOfUser(t[|t| - 1 - i])
  {
    var n := NewestFirst(t);
    seq(|n|, i requires 0 <= i < |n| => ViewOfUser(n[i]))
  }

  /** An `api_key` value after strip(), with blank read as no key. */
  function ApiKeyOf(s: string): (k: Option<string>)
    ensures k.None? <==> PyBlank(s)
    ensures k.Some? ==> k.value == PyStrip(s)
  {
    if PyStrip(s) == "" then None else Some(PyStrip(s))
  }

  /** Overrides user_create applies to the row create_user made: `role` as sent, `is_active` by the convention. */
  function CreatedUser(u: User, form: Form): User {
    u.(role := if "role" in form then form["role"] else u.role,
       isActive := if "is_active" in form then FormBool(form["is_active"]) else u.isActive)
  }

  /**
   * user_create. `createUser` stands for sqlitelog.create_user (name,
   * password, api key) and is taken to keep the name it is given;
   * `createFails` says whether it raises, which the handler's generic
   * branch reports before anything is stored.
   */
  method UserCreate(db: Database, form: Form, createUser: (string, string, Option<string>) -> User,
                    createFails: (string, string, Option<string>) -> bool)
    returns (r: Reply<Row<User>>)
    requires db.Valid()
    requires forall name, password, key :: createUser(name, password, key).username == name
    modifies db`users
    ensures db.Valid()
    ensures r.Err? ==> db.users == old(db.users)
    ensures var name := PyStrip(Get(form, "username", ""));
      var password := PyStrip(Get(form, "new_password", ""));
      if name == "" || password == "" then r == Err(MissingField)
      else if KeyTaken(old(db.users), NameOfUser, name) then r == Err(AlreadyExists)
      else
        var apiKey := ApiKeyOf(Get(form, "api_key", ""));
        if createFails(name, password, apiKey) then r == Err(Failed)
        else
          var u := CreatedUser(createUser(name, password, apiKey), form);
          db.users == Insert(old(db.users), u) && r == Ok(db.users[|old(db.users)|])
  {
    var name := PyStrip(Get(form, "username", ""));
    var password := PyStrip(Get(form, "new_password", ""));
    if name == "" || password == "" {
      return Err(MissingField);
    }
    if KeyTaken(db.users, NameOfUser, name) {
      return Err(AlreadyExists);
    }
    var apiKey := ApiKeyOf(Get(form, "api_key", ""));
    if createFails(name, password, apiKey) {
      return Err(Failed);
    }
    var user := CreatedUser(createUser(name, password, apiKey), form);
    InsertKeepsUnique(db.users, NameOfUser, user);
    db.users := Insert(db.users, user);
    r := Ok(db.users[|db.users| - 1]);
  }

  /** The new password when `new_password` is present and not blank. */
  function NewPassword(form: Form): (p: Option<string>)
    ensures p.Some? <==> "new_password" in form && !PyBlank(form["new_password"])
    ensures p.Some? ==> p.value == PyStrip(form["new_password"])
  {
    if "new_password" in form && PyStrip(form["new_password"]) != "" then Some(PyStrip(form["new_password"])) else None
  }

  /** user_update's patch of everything but the name; `hash` stands for User.hash_password. */
  function PatchUser(u: User, form: Form, hash: string -> (string, string), now: int): (p: User)
    ensures p.updatedAt == now && p.createdAt == u.createdAt && p.username == u.username
    ensures NewPassword(form).None? ==> p.passwordHash == u.passwordHash && p.salt == u.salt
    ensures NewPassword(form).Some? ==> (p.passwordHash, p.salt) == hash(NewPassword(form).value)
    ensures "api_key" in form ==> p.apiKey == ApiKeyOf(form["api_key"])
    ensures "api_key" !in form ==> p.apiKey == u.apiKey
    ensures p.role == if "role" in form then form["role"] else u.role
    ensures p.isActive <==> if "is_active" in form then FormBool(form["is_active"]) else u.isActive
  {
    var secret := match NewPassword(form)
      case None => (u.passwordHash, u.salt)
      case Some(pw) => hash(pw);
    User(u.username, secret.0, secret.1,
         if "api_key" in form then ApiKeyOf(form["api_key"]) else u.apiKey,
         if "role" in form then form["role"] else u.role,
         if "is_active" in form then FormBool(form["is_active"]) else u.isActive,
         u.createdAt, now)
  }

  /** A name no other user holds: the row's own name, or one no row holds. */
  lemma RenameFree(t: Table<User>, k: nat, name: string)
    requires IdsIncreasing(t) && UniqueKey(t, NameOfUser) && k < |t|
    requires name == t[k].data.username || !KeyTaken(t, NameOfUser, name)
    ensures forall j :: 0 <= j < |t| && j != k ==> t[j].data.username != name
  {
    forall j | 0 <= j < |t| && j != k
      ensures t[j].data.username != name
    {
      assert t[j] in t && t[k] in t && t[j].id != t[k].id;
    }
  }

  /** The name after user_update: the stripped `username` when sent, the old one otherwise. */
  function NewUsername(u: User, form: Form): string {
    if "username" in form then PyStrip(form["username"]) else u.username
  }

  /**
   * user_update: a rename to a name another user holds is refused before
   * anything is saved; a blank new password keeps the old hash; updated_at
   * is set to `now` on every successful update.
   */
  method UserUpdate(db: Database, form: Form, hash: string -> (string, string), now: int) returns (r: Reply<Row<User>>)
    requires db.Valid()
    modifies db`users
    ensures db.Valid()
    ensures r.Err? ==> db.users == old(db.users)
    ensures match Locate(old(db.users), form)
      case Err(e) => r == Err(e)
      case Ok(k) =>
        var u := old(db.users)[k].data;
        var name := NewUsername(u, form);
        if name != u.username && KeyTaken(old(db.users), NameOfUser, name) then r == Err(AlreadyExists)
        else
          var p := PatchUser(u, form, hash, now).(username := name);
          db.users == SetData(old(db.users), k, p) && r == Ok(db.users[k])
  {
    var loc := Locate(db.users, form);
    if loc.Err? {
      return Err(loc.error);
    }
    var k := loc.value;
    var user := db.users[k].data;
    var name := NewUsername(user, form);
    if name != user.username && KeyTaken(db.users, NameOfUser, name) {
      return Err(AlreadyExists);
    }
    user := PatchUser(user, form, hash, now).(username := name);
    RenameFree(db.users, k, name);
    SetDataKeepsUnique(db.users, NameOfUser, k, user);
    db.users := SetData(db.users, k, user);
    r := Ok(db.users[k]);
  }

  /**
   * user_delete: by default the row stays and is marked inactive with
   * updated_at set to `now`; with `hard_delete` the row is removed.
   */
  method UserDelete(db: Database, form: Form, now: int) returns (r: Reply<()>)
    requires db.Valid()
    modifies db`users
    ensures db.Valid()
    ensures r.Ok? <==> Locate(old(db.users), form).Ok?
    ensures r.Err? ==> db.users == old(db.users) && r == Err(Locate(old(db.users), form).error)
    ensures r.Ok? && FormBool(Get(form, "hard_delete", "false")) ==>
      db.users == RemoveId(old(db.users), RequestId(form).value) && |db.users| == |old(db.users)| - 1
    ensures r.Ok? && !FormBool(Get(form, "hard_delete", "false")) ==>
      var k := Locate(old(db.users), form).value;
      db.users == SetData(old(db.users), k, old(db.users)[k].data.(isActive := false, updatedAt := now))
  {
    var hard := FormBool(Get(form, "hard_delete", "false"));
    var loc := Locate(db.users, form);
    if loc.Err? {
      return Err(loc.error);
    }
    var k := loc.value;
    if hard {
      DeleteByIdRemovesOne(db.users, form, NameOfUser);
      db.users := RemoveId(db.users, db.users[k].id);
    } else {
      var user := db.users[k].data.(isActive := false, updatedAt := now);
      SetDataSameKeyKeepsUnique(db.users, NameOfUser, k, user);
      db.users := SetData(db.users, k, user);
    }
    r := Ok(());
  }

  // ---------------------------------------------------------------------------
  // Notification (the store helpers are outside the model: `store` stands for them)
  // ---------------------------------------------------------------------------

  datatype NewNotification = NewNotification(title: string, content: string, priority: int, status: string)

  /** The priority of a new notification: int() of `priority`, 0 when absent or unreadable. */
  function NewPriority(form: Form): (p: int)
    ensures "priority" in form && ParsePyInt(form["priority"]).Some? ==> p == ParsePyInt(form["priority"]).value
    ensures "priority" !in form || ParsePyInt(form["priority"]).None? ==> p == 0
  {
    match NumberField(form, "priority", 0)
    case None => 0
    case Some(n) => n
  }

  /** The status of a new notification: the stripped `status` when active or inactive, active otherwise. */
  function NewStatus(form: Form): (st: string)
    ensures st == "active" || st == "inactive"
    ensures st == "inactive" <==> PyStrip(Get(form, "status", "active")) == "inactive"
  {
    var status := PyStrip(Get(form, "status", "active"));
    if status == "inactive" then "inactive" else "active"
  }

  /**
   * notification_create's validation: title and content stripped and
   * required, then NewPriority and NewStatus.
   */
  function NotificationCreate(form: Form): (r: Reply<NewNotification>)
    ensures r.Err? <==> PyBlank(Get(form, "title", "")) || PyBlank(Get(form, "content", ""))
    ensures r.Err? ==> r.error == MissingField
    ensures r.Ok? ==> r.value == NewNotification(PyStrip(Get(form, "title", "")), PyStrip(Get(form, "content", "")),
                                                 NewPriority(form), NewStatus(form))
  {
    var title := PyStrip(Get(form, "title", ""));
    var content := PyStrip(Get(form, "content", ""));
    if title == "" || content == "" then Err(MissingField)
    else Ok(NewNotification(title, content, NewPriority(form), NewStatus(form)))
  }

  /** The fields a notification update sets; None leaves the field alone. */
  datatype NotificationPatch = NotificationPatch(title: Option<string>, content: Option<string>,
                                                 priority: Option<int>, status: Option<string>)

  /** A text field of the patch: the stripped value when the key is sent. */
  function PatchText(form: Form, key: string): (v: Option<string>)
    ensures v.Some? <==> key in form
    ensures v.Some? ==> v.value == PyStrip(form[key])
  {
    if key in form then Some(PyStrip(form[key])) else None
  }

  /** notification_update's check of `priority` and `status`: NotANumber first, then BadStatus. */
  function PatchChecks(form: Form): (r: Option<AdminError>)
    ensures r == Some(NotANumber) <==> "priority" in form && ParsePyInt(form["priority"]).None?
    ensures r == Some(BadStatus) <==>
      ("priority" !in form || ParsePyInt(form["priority"]).Some?)
      && "status" in form && PyStrip(form["status"]) != "active" && PyStrip(form["status"]) != "inactive"
    ensures r.None? || r == Some(NotANumber) || r == Some(BadStatus)
  {
    if "priority" in form && ParsePyInt(form["priority"]).None? then Some(NotANumber)
    else if "status" in form && PyStrip(form["status"]) != "active" && PyStrip(form["status"]) != "inactive" then Some(BadStatus)
    else None
  }

  /**
   * notification_update's validation, in the handler's order: a missing id,
   * then PatchChecks, then an empty patch, and only then int() of the id.
   */
  function NotificationUpdate(form: Form): (r: Reply<(int, NotificationPatch)>)
    ensures !Given(form, "id") ==> r == Err(MissingField)
    ensures Given(form, "id") && PatchChecks(form).Some? ==> r == Err(PatchChecks(form).value)
    ensures Given(form, "id") && PatchChecks(form).None? ==>
      if "title" !in form && "content" !in form && "priority" !in form && "status" !in form
      then r == Err(NothingToUpdate)
      else r.Ok? <==> ParsePyInt(form["id"]).Some?
    ensures r.Ok? ==> PatchChecks(form).None?
    ensures r.Ok? ==> "title" in form || "content" in form || "priority" in form || "status" in form
    ensures r.Err? && r.error == Failed ==> Given(form, "id") && ParsePyInt(form["id"]).None?
    ensures r.Ok? ==> Given(form, "id") && ParsePyInt(form["id"]) == Some(r.value.0)
    ensures r.Ok? ==> r.value.1 == NotificationPatch(PatchText(form, "title"), PatchText(form, "content"),
                                                     if "priority" in form then ParsePyInt(form["priority"]) else None,
                                                     PatchText(form, "status"))
  {
    if !Given(form, "id") then Err(MissingField)
    else if PatchChecks(form).Some? then Err(PatchChecks(form).value)
    else if "title" !in form && "content" !in form && "priority" !in form && "status" !in form then Err(NothingToUpdate)
    else
      var patch := NotificationPatch(PatchText(form, "title"), PatchText(form, "content"),
                                     if "priority" in form then ParsePyInt(form["priority"]) else None,
                                     PatchText(form, "status"));
      match ParsePyInt(form["id"])
      case None => Err(Failed)
      case Some(id) => Ok((id, patch))
  }

  /** An accepted patch never carries a status other than active or inactive. */
  lemma NotificationUpdateStatus(form: Form)
    requires NotificationUpdate(form).Ok?
    ensures var st := NotificationUpdate(form).value.1.status; st.Some? ==> st.value == "active" || st.value == "inactive"
  {
  }

  /** notification_update after validation: `store` stands for sqlitelog.update_notification. */
  function NotificationUpdateReply(form: Form, store: (int, NotificationPatch) -> bool): (r: Reply<int>)
    ensures NotificationUpdate(form).Err? ==> r == Err(NotificationUpdate(form).error)
    ensures NotificationUpdate(form).Ok? ==>
      r == if store(NotificationUpdate(form).value.0, NotificationUpdate(form).value.1)
           then Ok(NotificationUpdate(form).value.0) else Err(NotFound)
  {
    match NotificationUpdate(form)
    case Err(e) => Err(e)
    case Ok((id, patch)) => if store(id, patch) then Ok(id) else Err(NotFound)
  }

  /** notification_delete: `store` stands for sqlitelog.delete_notification. */
  function NotificationDelete(form: Form, store: int -> bool): (r: Reply<int>)
    ensures RequestId(form).Err? ==> r == Err(RequestId(form).error)
    ensures RequestId(form).Ok? ==> r == if store(RequestId(form).value) then Ok(RequestId(form).value) else Err(NotFound)
  {
    match RequestId(form)
    case Err(e) => Err(e)
    case Ok(id) => if store(id) then Ok(id) else Err(NotFound)
  }
}
