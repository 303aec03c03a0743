/**
 * Seeding of the model metadata table from the model catalogue: the
 * response is normalised to a list, then every entry with a usable `id`
 * whose name is not yet in the table is inserted. Existing rows are never
 * touched.
 */
module InitModelMeta {
  import opened Common
  import opened Tables
  import opened SqliteLog

  /** A decoded JSON value (numbers are integers here). */
  datatype Json =
    | JNull
    | JBool(b: bool)
    | JNum(n: int)
    | JStr(s: string)
    | JArr(items: seq<Json>)
    | JObj(fields: map<string, Json>)

  /** Python's bool() of a decoded JSON value. */
  predicate Truthy(j: Json) {
    match j
    case JNull => false
    case JBool(b) => b
    case JNum(n) => n != 0
    case JStr(s) => s != ""
    case JArr(items) => items != []
    case JObj(fields) => fields != map[]
  }

  function DefaultEntry(name: string, desc: string, recommend: bool, statusValid: bool): (e: Json)
    ensures e.JObj? && "id" !in e.fields
  {
    JObj(map["model_name" := JStr(name), "model_desc" := JStr(desc),
             "recommend" := JBool(recommend), "status_valid" := JBool(statusValid)])
  }

  /** get_default_models_data: the built-in catalogue, keyed by `model_name` (not `id`). */
  function DefaultModels(): (ms: seq<Json>)
    ensures |ms| == 8 && forall i :: 0 <= i < |ms| ==> ms[i].JObj? && "id" !in ms[i].fields
  {
    [ DefaultEntry("gpt-4o", "OpenAI最新旗舰级模型，适用于复杂任务和高级推理", true, true),
      DefaultEntry("gpt-4o-mini", "高效的小型模型，适合快速响应和轻量级任务", true, true),
      DefaultEntry("gpt-3.5-turbo", "平衡性能与成本的理想选择，适合日常任务", false, true),
      DefaultEntry("dall-e-3", "先进的图像生成模型，支持高分辨率图片创作", false, true),
      DefaultEntry("gpt-4-turbo", "强大的多模态模型，具备视觉理解能力", false, false),
      DefaultEntry("claude-3-sonnet", "Anthropic公司开发的智能模型，擅长分析和推理", true, true),
      DefaultEntry("claude-3-haiku", "快速响应的轻量级模型，适合即时对话", false, true),
      DefaultEntry("gemini-pro", "Google开发的多模态AI模型，具备广泛知识", false, true) ]
  }

  /**
   * The shape normalisation of init_model_meta_data: an object yields its
   * `models` entry, else its `data` entry, else the defaults; whatever is
   * then not a list is replaced by the defaults.
   */
  function Normalize(data: Json): seq<Json> {
    var picked :=
      if !data.JObj? then data
      else if "models" in data.fields then data.fields["models"]
      else if "data" in data.fields then data.fields["data"]
      else JArr(DefaultModels());
    if picked.JArr? then picked.items else DefaultModels()
  }

  /**
   * A list is taken as it is; an object's `models` list wins over its
   * `data` list; anything else ends as the defaults.
   */
  lemma NormalizeShape(data: Json)
    ensures data.JArr? ==> Normalize(data) == data.items
    ensures data.JObj? && "models" in data.fields && data.fields["models"].JArr?
            ==> Normalize(data) == data.fields["models"].items
    ensures data.JObj? && "models" !in data.fields && "data" in data.fields && data.fields["data"].JArr?
            ==> Normalize(data) == data.fields["data"].items
    ensures !data.JArr? && !(data.JObj? && "models" in data.fields && data.fields["models"].JArr?)
            && !(data.JObj? && "models" !in data.fields && "data" in data.fields && data.fields["data"].JArr?)
            ==> Normalize(data) == DefaultModels()
  {
  }

  /** What the loop does with one entry. */
  datatype Step = Skip | Add(row: ModelMeta) | Raise

  predicate NameTaken(t: Table<ModelMeta>, name: string) {
    exists i :: 0 <= i < |t| && t[i].data.modelName == name
  }

  /**
   * `desc_zh`, or 'No description available'; `text` stands for the
   * driver's conversion of a non-text value to the text column. A JSON null
   * gives None: the NOT NULL column refuses it and the loop's own handler
   * skips the entry.
   */
  function DescOf(f: map<string, Json>, text: Json -> string): Option<string> {
    if "desc_zh" !in f then Some("No description available")
    else match f["desc_zh"]
      case JStr(s) => Some(s)
      case JNull => None
      case other => Some(text(other))
  }

  /**
   * One pass of the loop body. An entry that is not an object only gets
   * past `'id' not in model_data` when `in` finds no 'id' (a substring of
   * a text, an element of a list); then `.get` raises, as does `in` on a
   * number, a boolean or null. A non-text `id` raises at `.strip()`.
   */
  function StepOf(t: Table<ModelMeta>, item: Json, text: Json -> string): Step
  {
    match item
    case JObj(f) =>
      if "id" !in f then Skip
      else
        (match f["id"]
         case JStr(raw) =>
           var name := PyStrip(raw);
           if name == "" || NameTaken(t, name) || DescOf(f, text).None? then Skip
           else Add(ModelMeta(name, DescOf(f, text).value,
                              "recommend" in f && Truthy(f["recommend"]),
                              "exists" !in f || Truthy(f["exists"])))
         case _ => Raise)
    case JStr(s) => if Contains(s, "id") then Raise else Skip
    case JArr(xs) => if JStr("id") in xs then Raise else Skip
    case _ => Raise
  }

  /** An entry without `id` is skipped. */
  lemma StepWithoutId(t: Table<ModelMeta>, item: Json, text: Json -> string)
    requires item.JObj? && "id" !in item.fields
    ensures StepOf(t, item, text) == Skip
  {
  }

  /** An entry whose `id` is blank text is skipped. */
  lemma StepBlankId(t: Table<ModelMeta>, f: map<string, Json>, raw: string, text: Json -> string)
    requires "id" in f && f["id"] == JStr(raw) && PyBlank(raw)
    ensures StepOf(t, JObj(f), text) == Skip
  {
  }

  /** An entry whose `desc_zh` is null adds nothing. */
  lemma StepNullDesc(t: Table<ModelMeta>, item: Json, text: Json -> string)
    requires item.JObj? && "desc_zh" in item.fields && item.fields["desc_zh"].JNull?
    ensures !StepOf(t, item, text).Add?
  {
  }

  /**
   * An added row carries the stripped `id`, is new to the table, and takes
   * the documented defaults for a missing `desc_zh`, `recommend` and
   * `exists`.
   */
  lemma StepAdds(t: Table<ModelMeta>, item: Json, text: Json -> string)
    requires StepOf(t, item, text).Add?
    ensures var row := StepOf(t, item, text).row;
      && item.JObj? && "id" in item.fields && item.fields["id"].JStr?
      && row.modelName == PyStrip(item.fields["id"].s) && row.modelName != ""
      && !NameTaken(t, row.modelName)
      && ("desc_zh" !in item.fields ==> row.modelDesc == "No description available")
      && ("desc_zh" in item.fields && item.fields["desc_zh"].JStr? ==> row.modelDesc == item.fields["desc_zh"].s)
      && ("recommend" !in item.fields ==> !row.recommend)
      && ("exists" !in item.fields ==> row.statusValid)
  {
  }

  /** The table, added_count, and whether an exception escaped. */
  datatype SeedState = SeedState(table: Table<ModelMeta>, added: nat, raised: bool)

  /** The insert-if-absent loop over `items`, stopping at the first exception. */
  function Seed(t: Table<ModelMeta>, items: seq<Json>, text: Json -> string): SeedState
    decreases |items|
  {
    if items == [] then SeedState(t, 0, false)
    else match StepOf(t, items[0], text)
      case Raise => SeedState(t, 0, true)
      case Skip => Seed(t, items[1..], text)
      case Add(m) =>
        var rest := Seed(Insert(t, m), items[1..], text);
        rest.(added := rest.added + 1)
  }

  /** Seeding never changes an existing row and adds exactly `added` rows. */
  lemma {:induction false} SeedKeepsRows(t: Table<ModelMeta>, items: seq<Json>, text: Json -> string)
    ensures var r := Seed(t, items, text);
      |r.table| == |t| + r.added && r.table[..|t|] == t
    decreases |items|
  {
    if items != [] {
      match StepOf(t, items[0], text)
      case Raise =>
      case Skip => SeedKeepsRows(t, items[1..], text);
      case Add(m) =>
        var u := Insert(t, m);
        SeedKeepsRows(u, items[1..], text);
        var r := Seed(u, items[1..], text);
        assert r.table[..|t|] == r.table[..|u|][..|t|];
    }
  }

  /**
   * Seeding keeps rowid order and the unique model name (so an id repeated
   * later in the input is skipped, not inserted twice).
   */
  lemma {:induction false} SeedKeepsUnique(t: Table<ModelMeta>, items: seq<Json>, text: Json -> string)
    requires IdsIncreasing(t) && UniqueKey(t, NameOfModel)
    ensures IdsIncreasing(Seed(t, items, text).table) && UniqueKey(Seed(t, items, text).table, NameOfModel)
    decreases |items|
  {
    if items != [] {
      match StepOf(t, items[0], text)
      case Raise =>
      case Skip => SeedKeepsUnique(t, items[1..], text);
      case Add(m) =>
        StepAdds(t, items[0], text);
        InsertKeepsUnique(t, NameOfModel, m);
        SeedKeepsUnique(Insert(t, m), items[1..], text);
    }
  }

  /** The table after one step that does not raise. */
  function AfterStep(t: Table<ModelMeta>, s: Step): Table<ModelMeta> {
    if s.Add? then Insert(t, s.row) else t
  }

  /**
   * What the loop keeps: the steps done so far, followed by Seed over the
   * remaining entries, give Seed over all of them.
   */
  predicate SeedInv(t0: Table<ModelMeta>, items: seq<Json>, i: nat, t: Table<ModelMeta>, added: nat, text: Json -> string)
    requires i <= |items|
  {
    var rest := Seed(t, items[i..], text);
    Seed(t0, items, text) == SeedState(rest.table, added + rest.added, rest.raised)
  }

  /** One pass of the loop keeps SeedInv, or ends Seed when the entry raises. */
  lemma SeedInvStep(t0: Table<ModelMeta>, items: seq<Json>, i: nat, t: Table<ModelMeta>, added: nat, text: Json -> string)
    requires i < |items| && SeedInv(t0, items, i, t, added, text)
    ensures var s := StepOf(t, items[i], text);
      && (s.Raise? ==> Seed(t0, items, text) == SeedState(t, added, true))
      && (!s.Raise? ==> SeedInv(t0, items, i + 1, AfterStep(t, s), added + if s.Add? then 1 else 0, text))
  {
    assert items[i..][0] == items[i] && items[i..][1..] == items[i + 1..];
  }

  /** SeedInv at the start and at the end of the loop. */
  lemma SeedInvEnds(t0: Table<ModelMeta>, items: seq<Json>, t: Table<ModelMeta>, added: nat, text: Json -> string)
    ensures SeedInv(t0, items, 0, t0, 0, text)
    ensures SeedInv(t0, items, |items|, t, added, text) ==> Seed(t0, items, text) == SeedState(t, added, false)
  {
    assert items[0..] == items && items[|items|..] == [];
  }

  /** Entries without `id` are all skipped: nothing is added and nothing raises. */
  lemma {:induction false} SeedWithoutIds(t: Table<ModelMeta>, items: seq<Json>, text: Json -> string)
    requires forall i :: 0 <= i < |items| ==> items[i].JObj? && "id" !in items[i].fields
    ensures Seed(t, items, text) == SeedState(t, 0, false)
    decreases |items|
  {
    if items != [] {
      SeedWithoutIds(t, items[1..], text);
    }
  }

  /** The built-in catalogue has no `id` keys, so seeding from it adds nothing. */
  lemma DefaultsAddNothing(t: Table<ModelMeta>, text: Json -> string)
    ensures Seed(t, DefaultModels(), text) == SeedState(t, 0, false)
  {
    SeedWithoutIds(t, DefaultModels(), text);
  }

  /** The reassignments of `models_data` at the top of init_model_meta_data. */
  method NormalizeModelsData(fetched: Json) returns (items: seq<Json>)
    ensures items == Normalize(fetched)
  {
    var modelsData := fetched;
    if modelsData.JObj? {
      if "models" in modelsData.fields {
        modelsData := modelsData.fields["models"];
      } else if "data" in modelsData.fields {
        modelsData := modelsData.fields["data"];
      } else {
        modelsData := JArr(DefaultModels());
      }
    }
    if !modelsData.JArr? {
      modelsData := JArr(DefaultModels());
    }
    items := modelsData.items;
  }

  /**
   * init_model_meta_data on the decoded catalogue `fetched`: normalise the
   * shape, then the insert-if-absent loop, counting the inserted rows.
   */
  method InitModelMetaData(db: Database, fetched: Json, text: Json -> string) returns (addedCount: nat, raised: bool)
    requires db.Valid()
    modifies db`modelMetas
    ensures db.Valid()
    ensures SeedState(db.modelMetas, addedCount, raised) == Seed(old(db.modelMetas), Normalize(fetched), text)
  {
    var items := NormalizeModelsData(fetched);
    addedCount, raised := 0, false;
    SeedInvEnds(db.modelMetas, items, db.modelMetas, 0, text);
    var i := 0;
    while i < |items|
      invariant 0 <= i <= |items| && db.ModelMetasValid()
      invariant SeedInv(old(db.modelMetas), items, i, db.modelMetas, addedCount, text)
    {
      var step := StepOf(db.modelMetas, items[i], text);
      SeedInvStep(old(db.modelMetas), items, i, db.modelMetas, addedCount, text);
      if step.Raise? {
        raised := true;
        return;
      }
      if step.Add? {
        StepAdds(db.modelMetas, items[i], text);
        InsertKeepsUnique(db.modelMetas, NameOfModel, step.row);
        db.modelMetas := Insert(db.modelMetas, step.row);
        addedCount := addedCount + 1;
      }
      i := i + 1;
    }
    SeedInvEnds(old(db.modelMetas), items, db.modelMetas, addedCount, text);
  }
}
